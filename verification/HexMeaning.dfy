/** What is in which column of a dump, and which numbers are read. */
module HexMeaning {
  import opened Bytes
  import opened TextLines
  import opened BufferModel
  import opened BufferRefinement
  import opened HexDump
  import opened HexRoundTrip

  function Pow16(k: nat): (p: nat)
    ensures p > 0
  {
    if k == 0 then 1 else 16 * Pow16(k - 1)
  }

  function Hex(v: nat): byte
    requires v < 16
  {
    Text("0123456789abcdef")[v]
  }

  lemma HexIsDigit(v: nat)
    requires v < 16
    ensures Hex(v) == Digit(v)
  {
  }

  lemma {:induction false} DivideTwice(n: nat, p: nat)
    requires p > 0
    ensures n / 16 / p == n / (16 * p)
  {
    var a, b, r := n / 16 / p, n / 16 % p, n % 16;
    assert n == 16 * (p * a + b) + r;
    assert n == (16 * p) * a + (16 * b + r);
    Quotient(n, 16 * p, a, 16 * b + r);
  }

  lemma Quotient(n: nat, p: nat, a: nat, r: nat)
    requires p > 0 && r < p && n == p * a + r
    ensures n / p == a
  {
    var q, s := n / p, n % p;
    Larger(p, a, q, r, s);
    Larger(p, q, a, s, r);
  }

  lemma Larger(p: nat, a: nat, b: nat, r: nat, s: nat)
    requires r < p
    ensures a < b ==> p * a + r < p * b + s
  {
    if a < b {
      var d: nat := b - a - 1;
      Distributes(p, a + 1, d);
      Distributes(p, a, 1);
      Distributes(p, d, 0);
    }
  }

  lemma Distributes(p: nat, x: nat, y: nat)
    ensures p * (x + y) == p * x + p * y && p * x >= 0 && p * 1 == p
  {
  }

  lemma {:induction false} DigitsCount(n: nat, width: nat)
    requires width > 0 && n < Pow16(width)
    ensures |HexDigits(n)| <= width
  {
    assert Pow16(0) == 1;
    if n >= 16 {
      DigitsCount(n / 16, width - 1);
    }
  }

  lemma PaddedSnoc(n: nat, width: nat)
    requires width > 1 && n < Pow16(width)
    ensures n / 16 < Pow16(width - 1) && Padded(n, width) == Padded(n / 16, width - 1) + [Digit(n % 16)]
  {
    hide Digit;
    DigitsCount(n, width);
    DigitsCount(n / 16, width - 1);
    if n < 16 {
      assert HexDigits(0) == [Digit(0)];
      ZeroDigit();
    }
  }

  lemma ZeroDigit()
    ensures Digit(0) == 0x30
  {
  }

  /** A padded number has just its digits, the last of them for the least. */
  lemma {:induction false} PaddedAt(n: nat, width: nat, k: nat)
    requires k < width && n < Pow16(width)
    ensures |Padded(n, width)| == width && Padded(n, width)[k] == Hex(n / Pow16(width - 1 - k) % 16)
    decreases width
  {
    hide Padded, Hex, Digit;
    if width == 1 {
      assert Pow16(1) == 16 * Pow16(0);
      PaddedOne(n);
      HexIsDigit(n);
    } else {
      PaddedSnoc(n, width);
      PaddedAt(n / 16, width - 1, if k < width - 1 then k else 0);
      if k < width - 1 {
        DivideTwice(n, Pow16(width - 2 - k));
        assert Pow16(width - 1 - k) == 16 * Pow16(width - 2 - k);
      } else {
        assert Pow16(0) == 1;
        HexIsDigit(n % 16);
      }
    }
  }

  lemma PaddedOne(n: nat)
    requires n < 16
    ensures Padded(n, 1) == [Digit(n)]
  {
  }

  lemma {:induction false} HexPartAt(row: seq<byte>, i: nat)
    requires i < |row|
    ensures |HexPart(row)| == 3 * |row|
    ensures var h := HexPart(row);
            h[3 * i] == Hex(row[i] / 16) && h[3 * i + 1] == Hex(row[i] % 16) && h[3 * i + 2] == 0x20
    decreases |row|
  {
    hide Padded, Hex;
    var two, rest := Padded(row[0], 2), HexPart(row[1..]);
    TwoDigits(row[0]);
    HexPartFirst(row);
    if |row| == 1 {
      NoHexPart();
    } else {
      HexPartAt(row[1..], if i > 0 then i - 1 else 0);
    }
  }

  lemma SmallPowers()
    ensures Pow16(0) == 1 && Pow16(1) == 16 && Pow16(2) == 256
  {
  }

  lemma TwoDigits(b: byte)
    ensures Padded(b, 2) == [Hex(b / 16), Hex(b % 16)]
  {
    hide Padded, Hex, Pow16;
    SmallPowers();
    PaddedAt(b, 2, 0);
    PaddedAt(b, 2, 1);
    assert b / 16 % 16 == b / 16 && b / 1 == b;
    assert Padded(b, 2) == [Padded(b, 2)[0], Padded(b, 2)[1]];
  }

  /** A line has its address in eight digits behind four blanks, each byte in two digits of its own three columns,
   * and the characters from column 63 on. */
  lemma Columns(index: nat, row: seq<byte>, ascii: bool)
    requires index < MAX32 && |row| <= 16
    ensures var l := HexLine(index, row, ascii);
            && |l| == 62 + (if ascii then 1 + |row| else 0)
            && (forall k :: 0 <= k < 4 ==> l[k] == 0x20)
            && (forall k :: 4 <= k < 12 ==> l[k] == Hex(index / Pow16(11 - k) % 16))
            && l[12] == 0x3a && l[13] == 0x20
            && (forall i :: 0 <= i < |row| ==>
                  l[14 + 3 * i] == Hex(row[i] / 16) && l[15 + 3 * i] == Hex(row[i] % 16) && l[16 + 3 * i] == 0x20)
            && (forall k :: 14 + 3 * |row| <= k < 62 ==> l[k] == 0x20)
            && (ascii ==> l[62] == 0x20)
            && (ascii ==> forall i :: 0 <= i < |row| ==> l[63 + i] == if 0x20 <= row[i] < 0x7f then row[i] else 0x2e)
  {
    hide Padded, HexPart, Hex, Pow16;
    Address(index);
    var address, hex := Padded(index, 8), HexPart(row);
    var blanks: nat := 3 * (16 - |row|);
    if row == [] {
      NoHexPart();
    } else {
      HexPartAt(row, 0);
    }
    var head := Blanks(4) + address + [COLON, SPACE];
    var l := HexLine(index, row, ascii);
    assert l == head + hex + Blanks(blanks) + if ascii then [SPACE] + Ascii(row) else [];
    forall k | 4 <= k < 12 ensures l[k] == Hex(index / Pow16(11 - k) % 16) {
      assert l[k] == address[k - 4];
    }
    forall i | 0 <= i < |row|
      ensures l[14 + 3 * i] == Hex(row[i] / 16) && l[15 + 3 * i] == Hex(row[i] % 16) && l[16 + 3 * i] == 0x20
    {
      HexPartAt(row, i);
      assert l[14 + 3 * i] == hex[3 * i] && l[15 + 3 * i] == hex[3 * i + 1] && l[16 + 3 * i] == hex[3 * i + 2];
    }
  }

  lemma Address(index: nat)
    requires index < MAX32
    ensures |Padded(index, 8)| == 8
    ensures forall k :: 0 <= k < 8 ==> Padded(index, 8)[k] == Hex(index / Pow16(7 - k) % 16)
  {
    hide Padded, Hex;
    assert Pow16(8) == MAX32 by {
      assert Pow16(0) == 1 && Pow16(1) == 0x10 && Pow16(2) == 0x100 && Pow16(3) == 0x1000 && Pow16(4) == 0x1_0000;
      assert Pow16(5) == 0x10_0000 && Pow16(6) == 0x100_0000 && Pow16(7) == 0x1000_0000;
    }
    PaddedAt(index, 8, 0);
    forall k | 0 <= k < 8 ensures Padded(index, 8)[k] == Hex(index / Pow16(7 - k) % 16) {
      PaddedAt(index, 8, k);
    }
  }

  /** The k-th line of a dump is for the bytes from 16 k on. */
  lemma {:induction false} LinesAre16(c: seq<byte>, index: nat, ascii: bool, k: nat)
    requires index <= |c|
    ensures |HexLines(c, index, ascii)| == (|c| - index + 15) / 16
    ensures index + 16 * k < |c| ==>
              && k < |HexLines(c, index, ascii)|
              && HexLines(c, index, ascii)[k] == HexLine(index + 16 * k, Sixteen(c, index + 16 * k), ascii)
    decreases |c| - index
  {
    hide HexLine;
    if index < |c| {
      var next := if index + 16 < |c| then index + 16 else |c|;
      FirstRow(c, index);
      LinesAre16(c, next, ascii, if k > 0 then k - 1 else 0);
      var rest := HexLines(c, next, ascii);
      assert HexLines(c, index, ascii) == [HexLine(index, Sixteen(c, index), ascii)] + rest;
    }
  }

  function Sixteen(c: seq<byte>, from: nat): (row: seq<byte>)
    requires from < |c|
    ensures |row| <= 16
  {
    c[from..if from + 16 < |c| then from + 16 else |c|]
  }

  lemma FirstRow(c: seq<byte>, index: nat)
    requires index < |c|
    ensures Row(c, index) == Sixteen(c, index)
    ensures index + |Row(c, index)| == if index + 16 < |c| then index + 16 else |c|
  {
  }

  /** A line that is read puts its bytes at its address and keeps all other data; a line without an address does
   * nothing. */
  lemma InputPuts(s: Buf, line: seq<byte>, k: nat)
    requires s.Valid()
    ensures var r := InputLine(s, line);
            match ParseLine(line)
            case NoAddress => r == s
            case Values(address, bytes) =>
              && r.size == (if s.size < address + |bytes| then address + |bytes| else s.size)
              && |r.Content()| == r.size
              && (address <= k < address + |bytes| ==> r.Content()[k] == bytes[k - address])
              && (k < s.size && !(address <= k < address + |bytes|) ==> r.Content()[k] == s.Content()[k])
  {
    hide MakeSpace, Buf.Content, Splice, Number, Numbers;
    match ParseLine(line)
    case NoAddress =>
    case Values(address, bytes) =>
      MakeSpaceFits(s, address + |bytes|, 0);
      var m := MakeSpace(s, address + |bytes|, 0);
      ContentSize(InputLine(s, line));
      ContentSize(s);
      if k < Max(m.size, address + |bytes|) {
        PokeAt(m, address, bytes, k);
      }
  }

  // ------------------------------------------------------------------ numbers

  /** The value of a digit by its place among the sixteen, in either case. */
  predicate DigitOf(c: byte, v: nat) {
    v < 16 && (c == Text("0123456789abcdef")[v] || c == Text("0123456789ABCDEF")[v])
  }

  lemma SmallDigit(v: nat)
    requires v < 16
    ensures Text("0123456789abcdef")[v] == if v < 10 then 0x30 + v else 0x61 + v - 10
  {
  }

  lemma CapitalDigit(v: nat)
    requires v < 16
    ensures Text("0123456789ABCDEF")[v] == if v < 10 then 0x30 + v else 0x41 + v - 10
  {
  }

  lemma ValueOfDigit(c: byte, v: nat)
    ensures DigitOf(c, v) ==> IsHex(c) && HexValue(c) == v
    ensures IsHex(c) ==> DigitOf(c, HexValue(c))
  {
    hide Text;
    if v < 16 {
      SmallDigit(v);
      CapitalDigit(v);
    }
    if IsHex(c) {
      SmallDigit(HexValue(c));
      CapitalDigit(HexValue(c));
    }
  }

  /** The number that a list of digits stands for. */
  function ValueOf(values: seq<nat>): nat {
    if values == [] then 0 else 16 * ValueOf(values[..|values| - 1]) + values[|values| - 1]
  }

  predicate DigitsOf(d: seq<byte>, values: seq<nat>) {
    |d| == |values| && forall k :: 0 <= k < |d| ==> DigitOf(d[k], values[k])
  }

  lemma DigitsStep(acc: nat, s: seq<byte>)
    requires s != [] && IsHex(s[0])
    ensures Digits(s, acc) == Digits(s[1..], acc * 16 + HexValue(s[0]))
  {
  }

  lemma ValueSnoc(done: seq<nat>, v: nat)
    ensures ValueOf(done + [v]) == ValueOf(done) * 16 + v
  {
    assert (done + [v])[..|done|] == done;
  }

  lemma {:induction false} DigitsAre(done: seq<nat>, d: seq<byte>, values: seq<nat>, rest: seq<byte>)
    requires DigitsOf(d, values) && (rest == [] || !IsHex(rest[0]))
    ensures Digits(d + rest, ValueOf(done)) == (ValueOf(done + values), rest)
    decreases |d|
  {
    hide DigitOf, IsHex, HexValue, ValueOf;
    if d == [] {
      assert d + rest == rest && done + values == done;
    } else {
      hide Digits;
      ValueOfDigit(d[0], values[0]);
      assert (d + rest)[0] == d[0] && (d + rest)[1..] == d[1..] + rest;
      DigitsStep(ValueOf(done), d + rest);
      ValueSnoc(done, values[0]);
      assert (done + [values[0]]) + values[1..] == done + values;
      forall k | 0 <= k < |d[1..]| ensures DigitOf(d[1..][k], values[1..][k]) {
        assert DigitOf(d[k + 1], values[k + 1]);
      }
      DigitsAre(done + [values[0]], d[1..], values[1..], rest);
    }
  }

  /** Which numbers are read: hexadecimal ones in either case, behind white space, with or without a sign and 0x;
   * a minus counts down from the limit, and what does not fit is refused. */
  lemma NumberIs(blanks: seq<byte>, sign: seq<byte>, mark: seq<byte>, d: seq<byte>, values: seq<nat>, rest: seq<byte>,
                 limit: nat)
    requires (forall k :: 0 <= k < |blanks| ==> Ws(blanks[k])) && sign in {[], Text("+"), Text("-")}
    requires mark in {[], Text("0x"), Text("0X")} && d != [] && DigitsOf(d, values)
    requires limit > 0 && (rest == [] || (!IsHex(rest[0]) && rest[0] != 0x78 && rest[0] != 0x58))
    ensures var v := ValueOf(values);
            Number(blanks + (sign + (mark + (d + rest))), limit)
            == if v >= limit then Unparsed else Parsed(if sign == Text("-") && v > 0 then limit - v else v, rest)
  {
    hide Digits, DigitOf, HexValue, IsHex, Ws, SkipWs, ValueOf;
    var w := d + rest;
    var u := mark + w;
    var t := sign + u;
    WhiteSkipped(blanks, t);
    FirstDigits(d, values, rest);
    MarkSkipped(mark, w);
    SignSkipped(sign, u);
    DigitsAre([], d, values, rest);
    assert [] + values == values;
    NoValue();
  }

  lemma NoValue()
    ensures ValueOf([]) == 0
  {
  }

  lemma FirstDigits(d: seq<byte>, values: seq<nat>, rest: seq<byte>)
    requires d != [] && DigitsOf(d, values)
    requires rest == [] || (!IsHex(rest[0]) && rest[0] != 0x78 && rest[0] != 0x58)
    ensures var w := d + rest; IsHex(w[0]) && (|w| >= 2 ==> w[1] != 0x78 && w[1] != 0x58)
  {
    hide DigitOf;
    assert DigitOf(d[0], values[0]);
    ValueOfDigit(d[0], values[0]);
    if |d| >= 2 {
      assert DigitOf(d[1], values[1]);
      ValueOfDigit(d[1], values[1]);
    }
  }

  lemma MarkSkipped(mark: seq<byte>, w: seq<byte>)
    requires mark in {[], Text("0x"), Text("0X")} && w != [] && IsHex(w[0])
    requires |w| >= 2 ==> w[1] != 0x78 && w[1] != 0x58
    ensures var u := mark + w;
            && u != [] && IsHex(u[0])
            && w == if |u| >= 2 && u[0] == 0x30 && (u[1] == 0x78 || u[1] == 0x58) then u[2..] else u
  {
    Marks();
    var u := mark + w;
    if mark == [] {
      assert u == w;
    } else {
      assert u[2..] == w;
    }
  }

  lemma SignSkipped(sign: seq<byte>, u: seq<byte>)
    requires sign in {[], Text("+"), Text("-")} && u != [] && IsHex(u[0])
    ensures var t := sign + u;
            && SkipWs(t) == t
            && (t[0] == 0x2b || t[0] == 0x2d <==> sign != []) && (t[0] == 0x2d <==> sign == Text("-"))
            && u == if sign != [] then t[1..] else t
  {
    Marks();
    var t := sign + u;
    if sign == [] {
      assert t == u;
    } else {
      assert t[1..] == u;
    }
  }

  lemma Marks()
    ensures Text("+") == [0x2b] && Text("-") == [0x2d] && Text("0x") == [0x30, 0x78] && Text("0X") == [0x30, 0x58]
  {
  }

  lemma {:induction false} WhiteSkipped(blanks: seq<byte>, s: seq<byte>)
    requires forall k :: 0 <= k < |blanks| ==> Ws(blanks[k])
    ensures SkipWs(blanks + s) == SkipWs(s)
  {
    if blanks == [] {
      assert blanks + s == s;
    } else {
      assert (blanks + s)[1..] == blanks[1..] + s;
      WhiteSkipped(blanks[1..], s);
    }
  }
}
