/** `Data` printed as lines of hexadecimal numbers, and read from such lines. */
module HexDump {
  import opened Bytes
  import opened TextLines
  import opened BufferModel
  import opened BufferRefinement
  import opened DataBuffer

  const COLON: byte := 0x3a
  const POINT: byte := 0x2e
  const LINE := 16
  const MAX64 := MAX32 * MAX32

  // ------------------------------------------------------------------ numbers

  function Digit(v: nat): (c: byte)
    requires v < 16
    ensures IsHex(c) && HexValue(c) == v && !Ws(c) && c != 0x2b && c != 0x2d && c != 0x78 && c != 0x58
  {
    if v < 10 then 0x30 + v else 0x61 + (v - 10)
  }

  predicate IsHex(c: byte) {
    0x30 <= c <= 0x39 || 0x41 <= c <= 0x46 || 0x61 <= c <= 0x66
  }

  function HexValue(c: byte): (v: nat)
    requires IsHex(c)
    ensures v < 16
  {
    if c <= 0x39 then c - 0x30 else if c <= 0x46 then c - 0x41 + 10 else c - 0x61 + 10
  }

  function HexDigits(n: nat): (s: seq<byte>)
    ensures s != [] && Numeric(s)
  {
    if n < 16 then [Digit(n)] else HexDigits(n / 16) + [Digit(n % 16)]
  }

  predicate Numeric(s: seq<byte>) {
    forall k :: 0 <= k < |s| ==> IsHex(s[k]) && s[k] != 0x78 && s[k] != 0x58
  }

  lemma NumericSingle(s: seq<byte>)
    requires Numeric(s)
    ensures Without(s, NL)
  {
    forall k | 0 <= k < |s| ensures s[k] != NL {
      assert IsHex(s[k]);
    }
  }

  /** Filled with zeros to a width; longer numbers get as much room as they need. */
  function Padded(n: nat, width: nat): (s: seq<byte>)
    ensures s != [] && Numeric(s)
  {
    var d := HexDigits(n);
    if |d| >= width then d else seq(width - |d|, _ => 0x30) + d
  }

  /** What an input stream makes of leading digits, continuing from `acc`. */
  function Digits(s: seq<byte>, acc: nat): (r: (nat, seq<byte>)) {
    if s != [] && IsHex(s[0]) then Digits(s[1..], acc * 16 + HexValue(s[0])) else (acc, s)
  }

  datatype Parsed = Parsed(value: nat, rest: seq<byte>) | Unparsed

  /** Reading an unsigned number below `limit` in base 16: a sign and a 0x may come first. */
  function Number(s: seq<byte>, limit: nat): Parsed
    requires limit > 0
  {
    var t := SkipWs(s);
    var signed := t != [] && (t[0] == 0x2b || t[0] == 0x2d);
    var u := if signed then t[1..] else t;
    var w := if |u| >= 2 && u[0] == 0x30 && (u[1] == 0x78 || u[1] == 0x58) then u[2..] else u;
    if w == [] || !IsHex(w[0]) then Unparsed else
    var (v, rest) := Digits(w, 0);
    if v >= limit then Unparsed
    else Parsed(if signed && t[0] == 0x2d && v > 0 then limit - v else v, rest)
  }

  lemma {:induction false} DigitsRead(n: nat, acc: nat, rest: seq<byte>)
    requires acc == 0
    ensures Digits(HexDigits(n) + rest, acc) == Digits(rest, n)
  {
    if n < 16 {
      assert ([Digit(n)] + rest)[1..] == rest;
    } else {
      DigitsRead(n / 16, 0, [Digit(n % 16)] + rest);
      assert HexDigits(n) + rest == HexDigits(n / 16) + ([Digit(n % 16)] + rest);
      assert ([Digit(n % 16)] + rest)[1..] == rest;
    }
  }

  lemma {:induction false} ZerosRead(k: nat, s: seq<byte>)
    ensures Digits(seq(k, _ => 0x30) + s, 0) == Digits(s, 0)
  {
    var zeros: seq<byte> := seq(k, _ => 0x30);
    if k == 0 {
      assert zeros + s == s;
    } else {
      assert (zeros + s)[1..] == seq(k - 1, _ => 0x30) + s;
      ZerosRead(k - 1, s);
    }
  }

  lemma PaddedRead(n: nat, width: nat, rest: seq<byte>)
    requires rest == [] || !IsHex(rest[0])
    ensures Digits(Padded(n, width) + rest, 0) == (n, rest)
  {
    var d := HexDigits(n);
    DigitsRead(n, 0, rest);
    if |d| < width {
      ZerosRead(width - |d|, d + rest);
      assert Padded(n, width) + rest == seq(width - |d|, _ => 0x30) + (d + rest);
    }
  }

  /** A printed number is read back, behind any blanks and in front of anything that is no digit or x. */
  lemma NumberRead(blanks: seq<byte>, n: nat, width: nat, rest: seq<byte>, limit: nat)
    requires Blank(blanks) && n < limit && (rest == [] || (!IsHex(rest[0]) && rest[0] != 0x78 && rest[0] != 0x58))
    ensures Number(blanks + Padded(n, width) + rest, limit) == Parsed(n, rest)
  {
    hide Digits;
    var s := Padded(n, width) + rest;
    assert blanks + Padded(n, width) + rest == blanks + s;
    BlanksSkipped(blanks, s);
    assert IsHex(s[0]) && !Ws(s[0]);
    assert SkipWs(s) == s;
    assert |s| >= 2 ==> s[1] != 0x78 && s[1] != 0x58;
    PaddedRead(n, width, rest);
  }

  predicate Blank(s: seq<byte>) {
    forall k :: 0 <= k < |s| ==> s[k] == SPACE
  }

  lemma {:induction false} BlanksSkipped(blanks: seq<byte>, s: seq<byte>)
    requires Blank(blanks)
    ensures SkipWs(blanks + s) == SkipWs(s)
  {
    if blanks == [] {
      assert blanks + s == s;
    } else {
      assert (blanks + s)[1..] == blanks[1..] + s;
      BlanksSkipped(blanks[1..], s);
    }
  }

  // ----------------------------------------------------------------- printing

  function Blanks(n: nat): (s: seq<byte>)
    ensures |s| == n && Blank(s)
  {
    seq(n, _ => SPACE)
  }

  /** The numbers of a line, of which there are at most 16. */
  function HexPart(bytes: seq<byte>): seq<byte> {
    if bytes == [] then [] else Padded(bytes[0], 2) + [SPACE] + HexPart(bytes[1..])
  }

  function Ascii(bytes: seq<byte>): (s: seq<byte>)
    ensures |s| == |bytes| && Without(s, NL)
  {
    seq(|bytes|, k requires 0 <= k < |bytes| => if 0x20 <= bytes[k] <= 0x7e then bytes[k] else POINT)
  }

  function Row(c: seq<byte>, index: nat): (row: seq<byte>)
    ensures |row| <= LINE
  {
    if index + LINE <= |c| then c[index..index + LINE] else if index <= |c| then c[index..] else []
  }

  /** A line, without its end. */
  function HexLine(index: nat, row: seq<byte>, ascii: bool): seq<byte>
    requires |row| <= LINE
  {
    Blanks(4) + Padded(index, 8) + [COLON, SPACE] + HexPart(row) + Blanks(3 * (LINE - |row|))
    + if ascii then [SPACE] + Ascii(row) else []
  }

  function HexLines(c: seq<byte>, index: nat, ascii: bool): seq<seq<byte>>
    requires index <= |c|
    decreases |c| - index
  {
    if index == |c| then [] else
    [HexLine(index, Row(c, index), ascii)] + HexLines(c, index + |Row(c, index)|, ascii)
  }

  method DumpHexBytes(row: seq<byte>, size: nat) returns (os: seq<byte>)
    requires |row| <= size
    ensures os == HexPart(row) + Blanks(3 * (size - |row|))
  {
    hide Padded, Blanks;
    os := [];
    assert row[0..] == row && [] + HexPart(row) == HexPart(row);
    for i := 0 to |row|
      invariant os + HexPart(row[i..]) == HexPart(row)
    {
      assert row[i..][0] == row[i] && row[i..][1..] == row[i + 1..];
      ghost var before := os;
      os := os + (Padded(row[i], 2) + [SPACE]);
      assert os + HexPart(row[i + 1..]) == before + HexPart(row[i..]);
    }
    assert row[|row|..] == [] && os + [] == os;
    ghost var numbers := os;
    assert numbers + Blanks(0) == numbers;
    for i := |row| to size
      invariant os == numbers + Blanks(3 * (i - |row|))
    {
      os := os + Blanks(3);
      assert Blanks(3 * (i - |row|)) + Blanks(3) == Blanks(3 * (i + 1 - |row|));
    }
  }

  method DumpAscii(row: seq<byte>) returns (os: seq<byte>)
    ensures os == Ascii(row)
  {
    os := [];
    for i := 0 to |row|
      invariant os == Ascii(row)[..i]
    {
      os := os + [if 0x20 <= row[i] <= 0x7e then row[i] else POINT];
    }
  }

  /** Every caller asks for lines of 16. An address past the data gives a line of blanks. */
  method DumpHexLine(data: Data, index: nat, ascii: bool) returns (os: seq<byte>)
    requires data.Valid()
    ensures os == HexLine(index, Row(data.Content(), index), ascii) + [NL]
  {
    hide Padded, Buf.Content, HexPart, Ascii;
    var c := data.GetData();
    var row := Row(c, index);
    os := Blanks(4) + Padded(index, 8) + [COLON, SPACE];
    var part := DumpHexBytes(row, LINE);
    os := os + part;
    if ascii {
      part := DumpAscii(row);
      os := os + [SPACE] + part;
    }
    os := os + [NL];
  }

  method DumpHex(data: Data, ascii: bool) returns (os: seq<byte>)
    requires data.Valid()
    ensures os == TextOf(HexLines(data.Content(), 0, ascii))
  {
    hide HexLine, HexLines, TextOf, Row, Buf.Content;
    os := [];
    var c := data.GetData();
    var address := 0;
    ghost var whole := TextOf(HexLines(c, 0, ascii));
    assert [] + whole == whole;
    while address < |c|
      invariant os + TextOf(HexLines(c, Within(c, address), ascii)) == whole
    {
      HexLinesStep(c, address, ascii);
      var line := DumpHexLine(data, address, ascii);
      assert os + (line + TextOf(HexLines(c, Within(c, address + LINE), ascii))) == whole;
      assert (os + line) + TextOf(HexLines(c, Within(c, address + LINE), ascii)) == whole;
      os := os + line;
      address := address + LINE;
    }
    NoHexLines(c, ascii);
    assert os + [] == os;
  }

  function Within(c: seq<byte>, address: nat): (k: nat)
    ensures k <= |c|
  {
    if address < |c| then address else |c|
  }

  lemma HexLinesStep(c: seq<byte>, address: nat, ascii: bool)
    requires address < |c|
    ensures TextOf(HexLines(c, address, ascii))
         == (HexLine(address, Row(c, address), ascii) + [NL]) + TextOf(HexLines(c, Within(c, address + LINE), ascii))
  {
    hide HexLine;
  }

  lemma NoHexLines(c: seq<byte>, ascii: bool)
    ensures TextOf(HexLines(c, |c|, ascii)) == []
  {
  }

  // ------------------------------------------------------------------ reading

  /** At most `n` numbers, each cut to a byte, up to the first thing that is none. */
  function Numbers(s: seq<byte>, n: nat): (v: seq<byte>)
    ensures |v| <= n
    decreases n
  {
    if n == 0 then [] else
    match Number(s, MAX32)
    case Unparsed => []
    case Parsed(value, rest) => [value % 0x100] + Numbers(rest, n - 1)
  }

  datatype Input = Values(address: nat, bytes: seq<byte>) | NoAddress

  /** One character, the colon, is skipped unseen. */
  function ParseLine(line: seq<byte>): Input {
    match Number(line, MAX64)
    case Unparsed => NoAddress
    case Parsed(address, rest) => Values(address, Numbers(if rest == [] then [] else rest[1..], LINE))
  }

  function InputLine(s: Buf, line: seq<byte>): (r: Buf)
    requires s.Valid()
    ensures r.Valid()
  {
    match ParseLine(line)
    case NoAddress => s
    case Values(address, bytes) =>
      MakeSpaceFits(s, address + |bytes|, 0);
      PokeTo(MakeSpace(s, address + |bytes|, 0), address, bytes, Max(address + |bytes|, s.size))
  }

  method ReadNumbers(text: seq<byte>, most: nat) returns (values: seq<byte>)
    ensures values == Numbers(text, most)
  {
    hide Number, Numbers;
    values := [];
    var rest, good := text, true;
    assert [] + Numbers(text, most) == Numbers(text, most);
    while good && |values| < most
      invariant |values| <= most
      invariant Numbers(text, most) == values + if good then Numbers(rest, most - |values|) else []
      decreases good, most - |values|
    {
      NumbersStep(rest, most - |values|);
      var parsed := Number(rest, MAX32);
      good := parsed.Parsed?;
      if good {
        assert values + ([parsed.value % 0x100] + Numbers(parsed.rest, most - |values| - 1))
            == (values + [parsed.value % 0x100]) + Numbers(parsed.rest, most - |values| - 1);
        values := values + [parsed.value % 0x100];
        rest := parsed.rest;
      }
    }
    if good {
      NoneLeft(rest);
    }
    assert values + [] == values;
  }

  lemma NumbersStep(s: seq<byte>, n: nat)
    requires n > 0
    ensures var p := Number(s, MAX32);
            Numbers(s, n) == if p.Unparsed? then [] else [p.value % 0x100] + Numbers(p.rest, n - 1)
  {
    hide Number;
  }

  lemma NoneLeft(s: seq<byte>)
    ensures Numbers(s, 0) == []
  {
  }

  method InputHexLine(data: Data, line: seq<byte>)
    requires data.Valid()
    modifies data, data.memBlock
    ensures data.Valid() && (data.memBlock == old(data.memBlock) || fresh(data.memBlock))
    ensures data.state == InputLine(old(data.state), line)
  {
    hide Number, Numbers, BufferModel.MakeSpace, BufferModel.Poke;
    var parsed := Number(line, MAX64);
    if parsed.Unparsed? {
      return;
    }
    var address := parsed.value;
    var values := ReadNumbers(if parsed.rest == [] then [] else parsed.rest[1..], LINE);
    MakeSpaceFits(data.state, address + |values|, 0);
    data.MakeSpace(address + |values|);
    data.PokeTo(address, values, Max(address + |values|, data.dataSize));
  }
}
