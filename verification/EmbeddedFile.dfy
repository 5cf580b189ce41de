/**
 The generator of the translations header: it prints the bytes of a file as C string
 literals of hexadecimal escapes, sixteen bytes to a line, followed by the byte count.
 A reader of such initialisers recovers the bytes.
 */
module EmbeddedFile {
  import opened GaloisField
  import opened Outcomes

  const BYTES_PER_LINE: nat := 16

  /*---- The printer ----*/

  function HexDigit(d: nat): char
    requires d < 16
  {
    "0123456789abcdef"[d]
  }

  /** printf("\\x%02x") */
  function Escape(b: byte): string {
    ['\\', 'x', HexDigit(b / 16), HexDigit(b % 16)]
  }

  /** printf("%d") of a natural number */
  function Decimal(n: nat): (s: string)
    ensures s != "" && forall i :: 0 <= i < |s| ==> '0' <= s[i] <= '9'
  {
    if n < 10 then [('0' as int + n) as char] else Decimal(n / 10) + [('0' as int + n % 10) as char]
  }

  const OPEN_LINE := "\n  \""

  /** What follows the last byte. */
  function Ending(n: nat): string {
    "\",\n  " + Decimal(n) + ");\n\n"
  }

  /** The text of byte j: a new line of literals before every sixteenth byte. */
  function PrintedByte(j: nat, b: byte): string {
    (if j % BYTES_PER_LINE == 0 then (if j > 0 then "\"" else "") + OPEN_LINE else "") + Escape(b)
  }

  /** The text from byte j on. */
  function PrintedFrom(bytes: seq<byte>, j: nat): string
    requires j <= |bytes|
    decreases |bytes| - j
  {
    if j == |bytes| then Ending(|bytes|) else PrintedByte(j, bytes[j]) + PrintedFrom(bytes, j + 1)
  }

  lemma PrintedNext(before: string, open: string, bytes: seq<byte>, j: nat)
    requires j < |bytes| && before + PrintedFrom(bytes, j) == PrintedFrom(bytes, 0)
    requires open + Escape(bytes[j]) == PrintedByte(j, bytes[j])
    ensures ((before + open) + Escape(bytes[j])) + PrintedFrom(bytes, j + 1) == PrintedFrom(bytes, 0)
  {
    hide Escape, PrintedByte;
    assert PrintedFrom(bytes, j) == (open + Escape(bytes[j])) + PrintedFrom(bytes, j + 1);
  }

  /** The loop of the generator that prints one file. */
  method PrintFile(bytes: seq<byte>) returns (text: string)
    ensures text == PrintedFrom(bytes, 0)
  {
    hide Escape, PrintedFrom;
    text := "";
    for j := 0 to |bytes|
      invariant text + PrintedFrom(bytes, j) == PrintedFrom(bytes, 0)
    {
      ghost var before := text;
      if j % 16 == 0 {
        if j > 0 {
          text := text + "\"";
        }
        text := text + "\n  \"";
      }
      ghost var open := text[|before|..];
      assert text == before + open;
      PrintedNext(before, open, bytes, j);
      text := text + Escape(bytes[j]);
    }
    LastPrinted(bytes);
    text := text + ("\",\n  " + Decimal(|bytes|) + ");\n\n");
  }

  lemma LastPrinted(bytes: seq<byte>)
    ensures PrintedFrom(bytes, |bytes|) == Ending(|bytes|)
  {
  }

  /*---- The reader ----*/

  function HexValue(c: char): (v: int)
    ensures -1 <= v < 16
  {
    if '0' <= c <= '9' then c as int - '0' as int
    else if 'a' <= c <= 'f' then c as int - 'a' as int + 10
    else if 'A' <= c <= 'F' then c as int - 'A' as int + 10
    else -1
  }

  /** A hexadecimal escape takes all hexadecimal digits that follow. */
  function ReadHex(s: string, acc: nat): (r: (nat, string))
    ensures |r.1| <= |s|
    decreases |s|
  {
    if s != "" && HexValue(s[0]) >= 0 then ReadHex(s[1..], 16 * acc + HexValue(s[0])) else (acc, s)
  }

  /** The rest of a string literal, up to its closing quote, and the text that follows it. */
  function ReadBody(s: string): (r: Option<(seq<byte>, string)>)
    ensures r.Some? ==> |r.value.1| < |s|
    decreases |s|
  {
    if s == "" || s[0] == '\n' then None
    else if s[0] == '"' then Some(([], s[1..]))
    else if s[0] == '\\' then
      if |s| >= 3 && s[1] == 'x' && HexValue(s[2]) >= 0 then
        var h := ReadHex(s[2..], 0);
        if h.0 >= 256 then None else Prepend(h.0, ReadBody(h.1))
      else None
    else if s[0] as int >= 128 then None
    else Prepend(s[0] as int, ReadBody(s[1..]))
  }

  function Prepend(b: byte, r: Option<(seq<byte>, string)>): Option<(seq<byte>, string)> {
    match r case None => None case Some(p) => Some(([b] + p.0, p.1))
  }

  function SkipSpace(s: string): (r: string)
    ensures |r| <= |s|
  {
    if s != "" && (s[0] == ' ' || s[0] == '\n') then SkipSpace(s[1..]) else s
  }

  /** Adjacent string literals, and the text that follows them. */
  function ReadLiterals(s: string): (r: Option<(seq<seq<byte>>, string)>)
    decreases |s|
  {
    var t := SkipSpace(s);
    if t == "" || t[0] != '"' then Some(([], t))
    else
      match ReadBody(t[1..])
      case None => None
      case Some(first) =>
        match ReadLiterals(first.1)
        case None => None
        case Some(more) => Some(([first.0] + more.0, more.1))
  }

  function ReadDecimal(s: string, acc: nat): (nat, string)
    decreases |s|
  {
    if s != "" && '0' <= s[0] <= '9' then ReadDecimal(s[1..], 10 * acc + (s[0] as int - '0' as int)) else (acc, s)
  }

  /** The arguments of std::string(literals, count); */
  function ReadInitialiser(s: string): Option<(seq<seq<byte>>, nat)> {
    match ReadLiterals(s)
    case None => None
    case Some(r) =>
      if r.0 == [] || r.1 == "" || r.1[0] != ',' then None
      else
        var d := ReadDecimal(SkipSpace(r.1[1..]), 0);
        if ");" <= d.1 then Some((r.0, d.0)) else None
  }

  /*---- Round trip ----*/

  function Flatten(lines: seq<seq<byte>>): seq<byte> {
    if lines == [] then [] else lines[0] + Flatten(lines[1..])
  }

  /** The lines of a file: sixteen bytes each, and the last one at least one. */
  function Lines(bytes: seq<byte>): seq<seq<byte>> {
    if |bytes| <= BYTES_PER_LINE then if bytes == [] then [] else [bytes]
    else [bytes[..BYTES_PER_LINE]] + Lines(bytes[BYTES_PER_LINE..])
  }

  lemma {:induction false} LinesAreShort(bytes: seq<byte>)
    ensures Flatten(Lines(bytes)) == bytes
    ensures forall i :: 0 <= i < |Lines(bytes)| ==> 1 <= |Lines(bytes)[i]| <= 16
    ensures forall i :: 0 <= i < |Lines(bytes)| - 1 ==> |Lines(bytes)[i]| == 16
  {
    if |bytes| > BYTES_PER_LINE {
      LinesAreShort(bytes[BYTES_PER_LINE..]);
      assert bytes == bytes[..BYTES_PER_LINE] + bytes[BYTES_PER_LINE..];
    } else if bytes != [] {
      assert Flatten([bytes]) == bytes + Flatten([]);
    }
  }

  lemma HexRoundTrip(d: nat)
    requires d < 16
    ensures HexValue(HexDigit(d)) == d
  {
  }

  /** The text is empty or goes on with a backslash or a quote, which are not hexadecimal digits. */
  predicate EndsHex(s: string) {
    s == "" || s[0] == '\\' || s[0] == '"'
  }

  lemma ReadEscape(b: byte, rest: string)
    requires EndsHex(rest)
    ensures ReadBody(Escape(b) + rest) == Prepend(b, ReadBody(rest))
  {
    hide HexDigit, HexValue, Prepend;
    var s := Escape(b) + rest;
    HexRoundTrip(b / 16);
    HexRoundTrip(b % 16);
    assert rest == "" || HexValue(rest[0]) < 0 by {
      NotHex();
    }
    var t := s[2..];
    assert t[0] == HexDigit(b / 16) && t[1..][0] == HexDigit(b % 16) && t[1..][1..] == rest;
    assert ReadHex(t[1..][1..], b) == (b, rest);
    assert ReadHex(t[1..], b / 16) == ReadHex(t[1..][1..], 16 * (b / 16) + b % 16);
    assert ReadHex(t, 0) == ReadHex(t[1..], b / 16);
  }

  lemma NotHex()
    ensures HexValue('\\') == -1 && HexValue('"') == -1
  {
  }

  lemma PrintedEndsHex(bytes: seq<byte>, j: nat)
    requires 0 < j <= |bytes|
    ensures EndsHex(PrintedFrom(bytes, j))
  {
  }

  /** Where the line that byte j - 1 stands on ends. */
  function LineEnd(bytes: seq<byte>, j: nat): (e: nat)
    requires 0 < j <= |bytes|
    ensures j <= e <= |bytes| && (e == |bytes| || e % BYTES_PER_LINE == 0)
  {
    var e := (j + BYTES_PER_LINE - 1) / BYTES_PER_LINE * BYTES_PER_LINE;
    if e < |bytes| then e else |bytes|
  }

  /** The text after the quote that closes a line. */
  function AfterLine(bytes: seq<byte>, e: nat): string
    requires e <= |bytes|
  {
    if e == |bytes| then AfterLiterals(|bytes|)
    else OPEN_LINE + (Escape(bytes[e]) + PrintedFrom(bytes, e + 1))
  }

  function AfterLiterals(n: nat): string {
    ",\n  " + Decimal(n) + ");\n\n"
  }

  lemma ReadQuote(rest: string)
    ensures ReadBody("\"" + rest) == Some(([], rest))
  {
    assert ("\"" + rest)[1..] == rest;
  }

  /** The text from byte j > 0 on: a quote closes the line, or one more byte follows on it. */
  lemma PrintedSplit(bytes: seq<byte>, j: nat)
    requires 0 < j <= |bytes|
    ensures LineEnd(bytes, j) == j ==> PrintedFrom(bytes, j) == "\"" + AfterLine(bytes, j)
    ensures LineEnd(bytes, j) != j ==>
              j < |bytes| && LineEnd(bytes, j + 1) == LineEnd(bytes, j)
              && PrintedFrom(bytes, j) == Escape(bytes[j]) + PrintedFrom(bytes, j + 1)
  {
    hide Escape, Decimal, Ending, PrintedByte, AfterLiterals, LineEnd;
    LineEndIs(bytes, j);
    if j == |bytes| {
      LastPrinted(bytes);
      EndingIs(|bytes|);
    } else {
      var next := PrintedFrom(bytes, j + 1);
      assert PrintedFrom(bytes, j) == PrintedByte(j, bytes[j]) + next;
      if j % BYTES_PER_LINE == 0 {
        NewLine(j, bytes[j], next);
      } else {
        SameLine(j, bytes[j]);
      }
    }
  }

  lemma LineEndIs(bytes: seq<byte>, j: nat)
    requires 0 < j <= |bytes|
    ensures LineEnd(bytes, j) == j <==> j == |bytes| || j % BYTES_PER_LINE == 0
    ensures j < |bytes| && j % BYTES_PER_LINE != 0 ==> LineEnd(bytes, j + 1) == LineEnd(bytes, j)
  {
    var q, m := j / BYTES_PER_LINE, j % BYTES_PER_LINE;
    assert j == BYTES_PER_LINE * q + m;
  }

  lemma EndingIs(n: nat)
    ensures Ending(n) == "\"" + AfterLiterals(n)
  {
    hide Decimal;
  }

  lemma NewLine(j: nat, b: byte, next: string)
    requires j > 0 && j % BYTES_PER_LINE == 0
    ensures PrintedByte(j, b) + next == "\"" + (OPEN_LINE + (Escape(b) + next))
  {
    hide Escape;
  }

  lemma SameLine(j: nat, b: byte)
    requires j % BYTES_PER_LINE != 0
    ensures PrintedByte(j, b) == Escape(b)
  {
    hide Escape;
  }

  lemma {:induction false} ReadLine(bytes: seq<byte>, j: nat)
    requires 0 < j <= |bytes|
    ensures var e := LineEnd(bytes, j);
            ReadBody(PrintedFrom(bytes, j)) == Some((bytes[j..e], AfterLine(bytes, e)))
    decreases |bytes| - j
  {
    hide Escape, PrintedFrom, AfterLine, ReadBody, LineEnd;
    var e := LineEnd(bytes, j);
    PrintedSplit(bytes, j);
    if e == j {
      assert bytes[j..e] == [];
      ReadQuote(AfterLine(bytes, j));
    } else {
      PrintedEndsHex(bytes, j + 1);
      ReadEscape(bytes[j], PrintedFrom(bytes, j + 1));
      ReadLine(bytes, j + 1);
      assert bytes[j..e] == [bytes[j]] + bytes[j + 1..e];
    }
  }

  /** Three blanks and a quote before a literal. */
  lemma ReadOneLiteral(s: string, body: seq<byte>, rest: string, more: seq<seq<byte>>, end: string)
    requires ReadBody(s) == Some((body, rest)) && ReadLiterals(rest) == Some((more, end))
    ensures ReadLiterals(OPEN_LINE + s) == Some(([body] + more, end))
  {
    hide ReadBody;
    assert OPEN_LINE + s == "\n  " + ("\"" + s);
    SkipThree("\"" + s);
    assert ("\"" + s)[1..] == s;
  }

  lemma SkipThree(s: string)
    requires s != "" && s[0] != ' ' && s[0] != '\n'
    ensures SkipSpace("\n  " + s) == s
  {
    var a, b, c := " " + s, "  " + s, "\n  " + s;
    assert a[1..] == s && b[1..] == a && c[1..] == b;
    assert SkipSpace(a) == SkipSpace(s) == s;
    assert SkipSpace(b) == SkipSpace(a);
    assert SkipSpace(c) == SkipSpace(b);
  }

  lemma {:induction false} ReadLines(bytes: seq<byte>, e: nat)
    requires e < |bytes| && e % BYTES_PER_LINE == 0
    ensures ReadLiterals(AfterLine(bytes, e)) == Some((Lines(bytes[e..]), AfterLiterals(|bytes|)))
    decreases |bytes| - e
  {
    hide Escape, PrintedFrom, ReadBody, ReadLiterals, AfterLiterals;
    var s, next := Escape(bytes[e]) + PrintedFrom(bytes, e + 1), LineEnd(bytes, e + 1);
    PrintedEndsHex(bytes, e + 1);
    ReadEscape(bytes[e], PrintedFrom(bytes, e + 1));
    ReadLine(bytes, e + 1);
    assert bytes[e..next] == [bytes[e]] + bytes[e + 1..next];
    if next == |bytes| {
      AfterLastLine(|bytes|);
      ReadOneLiteral(s, bytes[e..next], AfterLine(bytes, next), [], AfterLiterals(|bytes|));
      assert bytes[e..next] == bytes[e..];
      assert Lines(bytes[e..]) == [bytes[e..]] + [];
    } else {
      ReadLines(bytes, next);
      ReadOneLiteral(s, bytes[e..next], AfterLine(bytes, next), Lines(bytes[next..]), AfterLiterals(|bytes|));
      assert bytes[e..][..BYTES_PER_LINE] == bytes[e..next] && bytes[e..][BYTES_PER_LINE..] == bytes[next..];
    }
  }

  lemma AfterLastLine(n: nat)
    ensures ReadLiterals(AfterLiterals(n)) == Some(([], AfterLiterals(n)))
  {
    hide Decimal;
  }

  /*---- The byte count ----*/

  function Number(s: string, acc: nat): nat
    requires forall i :: 0 <= i < |s| ==> '0' <= s[i] <= '9'
  {
    if s == "" then acc else 10 * Number(s[..|s| - 1], acc) + (s[|s| - 1] as int - '0' as int)
  }

  lemma {:induction false} NumberFront(s: string, acc: nat)
    requires s != "" && forall i :: 0 <= i < |s| ==> '0' <= s[i] <= '9'
    ensures Number(s, acc) == Number(s[1..], 10 * acc + (s[0] as int - '0' as int))
  {
    if |s| == 1 {
      assert s[..0] == "" && s[1..] == "";
    } else {
      var init := s[..|s| - 1];
      NumberFront(init, acc);
      assert s[1..][..|s| - 2] == init[1..];
    }
  }

  lemma {:induction false} ReadNumber(s: string, acc: nat, rest: string)
    requires forall i :: 0 <= i < |s| ==> '0' <= s[i] <= '9'
    requires rest == "" || !('0' <= rest[0] <= '9')
    ensures ReadDecimal(s + rest, acc) == (Number(s, acc), rest)
  {
    if s == "" {
      assert s + rest == rest;
    } else {
      var d := s[0] as int - '0' as int;
      NumberFront(s, acc);
      assert (s + rest)[1..] == s[1..] + rest;
      ReadNumber(s[1..], 10 * acc + d, rest);
    }
  }

  lemma {:induction false} NumberOfDecimal(n: nat)
    ensures Number(Decimal(n), 0) == n
  {
    var s := Decimal(n);
    if n >= 10 {
      NumberOfDecimal(n / 10);
      assert s[..|s| - 1] == Decimal(n / 10);
    } else {
      assert s[..0] == "";
    }
  }

  /**
   Reading what was printed gives the lines of the file and its length, for every file but the
   empty one: its text has a single quote, and does not read as an initialiser.
   */
  lemma PrintedReadsBack(bytes: seq<byte>)
    ensures bytes != [] ==> ReadInitialiser(PrintedFrom(bytes, 0)) == Some((Lines(bytes), |bytes|))
    ensures bytes == [] ==> ReadInitialiser(PrintedFrom(bytes, 0)) == None
  {
    hide ReadInitialiser, PrintedFrom, Lines;
    if bytes == [] {
      EmptyUnreadable();
    } else {
      FirstLine(bytes);
      ReadLines(bytes, 0);
      assert bytes[0..] == bytes;
      ReadCount(PrintedFrom(bytes, 0), Lines(bytes), |bytes|);
    }
  }

  lemma FirstLine(bytes: seq<byte>)
    requires bytes != []
    ensures PrintedFrom(bytes, 0) == AfterLine(bytes, 0) && Lines(bytes) != []
  {
    hide Escape, Decimal;
  }

  lemma ReadCount(s: string, lines: seq<seq<byte>>, n: nat)
    requires lines != [] && ReadLiterals(s) == Some((lines, AfterLiterals(n)))
    ensures ReadInitialiser(s) == Some((lines, n))
  {
    hide Decimal, ReadLiterals, Number;
    var d := Decimal(n) + ");\n\n";
    assert AfterLiterals(n)[1..] == "\n  " + d;
    assert '0' <= d[0] <= '9';
    SkipThree(d);
    ReadNumber(Decimal(n), 0, ");\n\n");
    NumberOfDecimal(n);
  }

  lemma EmptyUnreadable()
    ensures ReadInitialiser(PrintedFrom([], 0)) == None
  {
    hide Decimal;
    var rest := AfterLiterals(0);
    var s := "\"" + rest;
    assert PrintedFrom([], 0) == s;
    assert s[1..] == rest;
    assert ReadBody(rest[1..]) == None;
    assert ReadBody(rest) == Prepend(44, ReadBody(rest[1..]));
    assert SkipSpace(s) == s;
    assert ReadLiterals(s) == None;
  }
}
