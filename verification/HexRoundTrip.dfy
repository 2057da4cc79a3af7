/** Reading a hexadecimal dump back. */
module HexRoundTrip {
  import opened Bytes
  import opened TextLines
  import opened BufferModel
  import opened BufferRefinement
  import opened HexDump

  // ----------------------------------------------------------------- one line

  lemma {:induction false} NumbersRead(blanks: seq<byte>, row: seq<byte>, tail: seq<byte>, n: nat)
    requires Blank(blanks) && |row| <= n
    ensures Numbers(blanks + HexPart(row) + tail, n) == row + Numbers(tail, n - |row|)
    decreases |row|
  {
    hide Number, Numbers, HexPart;
    if row == [] {
      NoHexPart();
      assert blanks + [] + tail == blanks + tail;
      NumbersSkip(blanks, tail, n);
    } else {
      FirstNumber(blanks, row, tail, n);
      NumbersRead([SPACE], row[1..], tail, n - 1);
      RowCons(row, Numbers(tail, n - |row|));
    }
  }

  lemma RowCons(row: seq<byte>, more: seq<byte>)
    requires row != []
    ensures row + more == [row[0]] + (row[1..] + more)
  {
  }

  lemma FirstNumber(blanks: seq<byte>, row: seq<byte>, tail: seq<byte>, n: nat)
    requires Blank(blanks) && row != [] && n > 0
    ensures Numbers(blanks + HexPart(row) + tail, n)
         == [row[0]] + Numbers([SPACE] + HexPart(row[1..]) + tail, n - 1)
  {
    hide Number, Padded, Numbers, HexPart;
    var rest := [SPACE] + HexPart(row[1..]) + tail;
    HexPartCons(blanks, row, tail);
    NumberRead(blanks, row[0], 2, rest, MAX32);
    NumbersStep(blanks + Padded(row[0], 2) + rest, n);
  }

  lemma NoHexPart()
    ensures HexPart([]) == []
  {
  }

  lemma HexPartCons(blanks: seq<byte>, row: seq<byte>, tail: seq<byte>)
    requires row != []
    ensures blanks + HexPart(row) + tail == blanks + Padded(row[0], 2) + ([SPACE] + HexPart(row[1..]) + tail)
  {
    var head, rest := Padded(row[0], 2), HexPart(row[1..]);
    HexPartFirst(row);
    hide Padded, HexPart;
    Assoc(blanks, head + ([SPACE] + rest), tail);
    Assoc(head, [SPACE] + rest, tail);
    Assoc(blanks, head, [SPACE] + rest + tail);
  }

  lemma HexPartFirst(row: seq<byte>)
    requires row != []
    ensures HexPart(row) == Padded(row[0], 2) + ([SPACE] + HexPart(row[1..]))
  {
    hide Padded;
  }

  lemma NumbersSkip(blanks: seq<byte>, s: seq<byte>, n: nat)
    requires Blank(blanks)
    ensures Number(blanks + s, MAX32) == Number(s, MAX32) && Numbers(blanks + s, n) == Numbers(s, n)
  {
    hide Digits;
    BlanksSkipped(blanks, s);
  }

  lemma NothingBehind(n: nat)
    ensures Numbers([], n) == []
  {
  }

  /** The numbers of a line, and what is taken for more of them in the column of characters. */
  function Extra(row: seq<byte>, ascii: bool): seq<byte>
    requires |row| <= LINE
  {
    if ascii then Numbers(Ascii(row), LINE - |row|) else []
  }

  lemma LineParsed(index: nat, row: seq<byte>, ascii: bool)
    requires index < MAX64 && |row| <= LINE
    ensures ParseLine(HexLine(index, row, ascii)) == Values(index, row + Extra(row, ascii))
  {
    hide Number, Numbers, Padded, HexPart, Ascii;
    var column: seq<byte> := if ascii then [SPACE] + Ascii(row) else [];
    var tail := Blanks(3 * (LINE - |row|)) + column;
    var rest := [COLON, SPACE] + HexPart(row) + tail;
    assert HexLine(index, row, ascii) == Blanks(4) + Padded(index, 8) + rest;
    NumberRead(Blanks(4), index, 8, rest, MAX64);
    assert rest[1..] == [SPACE] + HexPart(row) + tail;
    NumbersRead([SPACE], row, tail, LINE);
    NumbersSkip(Blanks(3 * (LINE - |row|)), column, LINE - |row|);
    if ascii {
      NumbersSkip([SPACE], Ascii(row), LINE - |row|);
    } else {
      NothingBehind(LINE - |row|);
    }
  }

  // ---------------------------------------------------------------- all lines

  function InputLines(s: Buf, lines: seq<seq<byte>>): (r: Buf)
    requires s.Valid()
    ensures r.Valid()
    decreases |lines|
  {
    if lines == [] then s else InputLines(InputLine(s, lines[0]), lines[1..])
  }

  lemma AppendValues(s: Buf, bytes: seq<byte>)
    requires s.Valid()
    ensures MakeSpace(s, s.size + |bytes|, 0).Valid() && !MakeSpace(s, s.size + |bytes|, 0).external
    ensures s.size + |bytes| <= MakeSpace(s, s.size + |bytes|, 0).BufSize()
    ensures var r := PokeTo(MakeSpace(s, s.size + |bytes|, 0), s.size, bytes, Max(s.size + |bytes|, s.size));
            r.Valid() && r.Content() == s.Content() + bytes
  {
    hide MakeSpace, Poke;
    MakeSpaceFits(s, s.size + |bytes|, 0);
    AppendRefines(s, bytes);
  }

  lemma LineAppends(s: Buf, row: seq<byte>, ascii: bool)
    requires s.Valid() && s.size < MAX64 && |row| <= LINE
    ensures InputLine(s, HexLine(s.size, row, ascii)).Content() == s.Content() + (row + Extra(row, ascii))
  {
    hide ParseLine, HexLine, MakeSpace, Poke, Extra, Buf.Content;
    LineParsed(s.size, row, ascii);
    AppendValues(s, row + Extra(row, ascii));
  }

  lemma FullRow(row: seq<byte>, ascii: bool)
    requires |row| == LINE
    ensures Extra(row, ascii) == []
  {
  }

  function LastRow(c: seq<byte>): (row: seq<byte>)
    ensures |row| < LINE
  {
    c[|c| - |c| % LINE..]
  }

  function ReadBack(s: Buf, c: seq<byte>, index: nat, ascii: bool): seq<byte>
    requires s.Valid() && index <= |c|
  {
    InputLines(s, HexLines(c, index, ascii)).Content()
  }

  lemma ReadBackEnd(s: Buf, c: seq<byte>, ascii: bool)
    requires s.Valid()
    ensures ReadBack(s, c, |c|, ascii) == s.Content()
  {
  }

  lemma ReadBackStep(s: Buf, c: seq<byte>, index: nat, ascii: bool)
    requires s.Valid() && index < |c|
    ensures index + |Row(c, index)| <= |c|
    ensures ReadBack(s, c, index, ascii)
         == ReadBack(InputLine(s, HexLine(index, Row(c, index), ascii)), c, index + |Row(c, index)|, ascii)
  {
    hide InputLine, HexLine, Buf.Content, Buf.Valid;
  }

  /** Everything is read back, with what the last line's characters add to it. */
  lemma {:induction false} LinesAppendAll(s: Buf, c: seq<byte>, index: nat, ascii: bool)
    requires s.Valid() && index <= |c| < MAX64 && s.Content() == c[..index]
    requires index % LINE == 0 || index == |c|
    ensures ReadBack(s, c, index, ascii) == c + if index < |c| then Extra(LastRow(c), ascii) else []
    decreases |c| - index
  {
    hide InputLine, HexLine, Extra, Buf.Content, Buf.Valid;
    hide ReadBack, HexLines, InputLines;
    if index == |c| {
      ReadBackEnd(s, c, ascii);
      assert c[..|c|] == c && c + [] == c;
    } else {
      ReadBackStep(s, c, index, ascii);
      ContentSize(s);
      var row := Row(c, index);
      var next := InputLine(s, HexLine(index, row, ascii));
      LineAppends(s, row, ascii);
      assert c[..index] + row == c[..index + |row|];
      if |row| == LINE {
        FullRow(row, ascii);
        assert row + [] == row;
        LinesAppendAll(next, c, index + LINE, ascii);
        if index + LINE == |c| {
          assert LastRow(c) == [];
          NoRow(ascii);
        }
      } else {
        assert row == LastRow(c);
        assert c[..index] + (row + Extra(row, ascii)) == c + Extra(row, ascii);
        ReadBackEnd(next, c, ascii);
      }
    }
  }

  /** Without a row there are no characters, and so no numbers among them. */
  lemma NoRow(ascii: bool)
    ensures Extra([], ascii) == []
  {
    assert Ascii([]) == [];
    NothingBehind(LINE);
  }

  lemma {:induction false} HexPartSingle(row: seq<byte>)
    ensures Without(HexPart(row), NL)
  {
    hide Padded;
    if row != [] {
      HexPartSingle(row[1..]);
      NumericSingle(Padded(row[0], 2));
    }
  }

  lemma LineSingle(index: nat, row: seq<byte>, ascii: bool)
    requires |row| <= LINE
    ensures Without(HexLine(index, row, ascii), NL)
  {
    hide Padded, HexPart, Ascii;
    HexPartSingle(row);
    NumericSingle(Padded(index, 8));
  }

  lemma {:induction false} DumpSingle(c: seq<byte>, index: nat, ascii: bool)
    requires index <= |c|
    ensures Single(HexLines(c, index, ascii))
    decreases |c| - index
  {
    hide HexLine;
    if index < |c| {
      LineSingle(index, Row(c, index), ascii);
      DumpSingle(c, index + |Row(c, index)|, ascii);
    }
  }

  /** A dump is read back exactly if its last line is full, or shows no characters, or shows characters
   * that do not begin with a hexadecimal number. */
  lemma DumpIsRead(s: Buf, c: seq<byte>, ascii: bool)
    requires s.Valid() && s.Content() == [] && |c| < MAX64
    ensures InputLines(s, Lines(TextOf(HexLines(c, 0, ascii)))).Content() == c
       <==> !ascii || |c| % LINE == 0 || Number(Ascii(LastRow(c)), MAX32).Unparsed?
  {
    hide Lines, TextOf, HexLines, InputLines, Number, Ascii, Buf.Content;
    DumpSingle(c, 0, ascii);
    LinesOfText(HexLines(c, 0, ascii));
    LinesAppendAll(s, c, 0, ascii);
    if |c| % LINE == 0 {
      NoRow(ascii);
    }
    NumbersStepExtra(LastRow(c));
    assert c + Extra(LastRow(c), ascii) == c ==> Extra(LastRow(c), ascii) == [] by {
      assert |c + Extra(LastRow(c), ascii)| == |c| + |Extra(LastRow(c), ascii)|;
    }
  }

  lemma NumbersStepExtra(row: seq<byte>)
    requires |row| < LINE
    ensures Extra(row, true) == [] <==> Number(Ascii(row), MAX32).Unparsed?
  {
    hide Number, Ascii;
    NumbersStep(Ascii(row), LINE - |row|);
  }

  /** The byte 0x61 is shown as an a, which is then read as the byte 0x0a. */
  lemma LetterIsReadAsNumber(s: Buf)
    requires s.Valid() && s.Content() == []
    ensures InputLines(s, Lines(TextOf(HexLines([0x61], 0, true)))).Content() != [0x61]
  {
    hide Lines, TextOf, HexLines, InputLines, Buf.Content;
    assert LastRow([0x61]) == [0x61] && Ascii([0x61]) == [0x61];
    var a: seq<byte> := [0x61];
    assert SkipWs(a) == a && IsHex(a[0]);
    assert Digits(a, 0) == (10, a[1..]);
    assert Number(a, MAX32).Parsed?;
    DumpIsRead(s, [0x61], true);
  }
}
