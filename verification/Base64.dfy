/** Base64 as section 5.2 of RFC 1341 describes it, with lines folded the way LDIF continues them. */
module Base64 {
  import opened Bytes

  const LINELEN := 72
  const EOF := -1
  const PAD: byte := 0x3d
  const INVALID: byte := 0x80
  const FOLD: seq<byte> := [0x0a, SPACE]

  // ------------------------------------------------------------ folding lines

  /** `s` in lines of 72 bytes; each line but the first begins with a space. */
  function Fold72(s: seq<byte>): seq<byte> {
    if |s| <= LINELEN then s else s[..LINELEN] + FOLD + Fold72(s[LINELEN..])
  }

  lemma {:induction false} FoldSnoc(s: seq<byte>, c: byte)
    ensures Fold72(s + [c]) == Fold72(s) + (if s != [] && |s| % LINELEN == 0 then FOLD else []) + [c]
  {
    if |s| <= LINELEN {
      assert (s + [c])[..|s|] == s && (s + [c])[|s|..] == [c];
    } else {
      assert (s + [c])[..LINELEN] == s[..LINELEN] && (s + [c])[LINELEN..] == s[LINELEN..] + [c];
      FoldSnoc(s[LINELEN..], c);
    }
  }

  /** What the decoder's `insig` lets through. */
  function Significant(s: seq<byte>): seq<byte> {
    if s == [] then [] else (if s[0] > SPACE then [s[0]] else []) + Significant(s[1..])
  }

  lemma {:induction false} SignificantAppend(a: seq<byte>, b: seq<byte>)
    ensures Significant(a + b) == Significant(a) + Significant(b)
  {
    if a == [] {
      assert a + b == b;
    } else {
      var ab := a + b;
      assert ab[0] == a[0] && ab[1..] == a[1..] + b;
      SignificantAppend(a[1..], b);
      var head := if a[0] > SPACE then [a[0]] else [];
      assert head + (Significant(a[1..]) + Significant(b)) == (head + Significant(a[1..])) + Significant(b);
    }
  }

  predicate Printing(s: seq<byte>) {
    forall i :: 0 <= i < |s| ==> s[i] > SPACE
  }

  lemma {:induction false} AllSignificant(s: seq<byte>)
    requires Printing(s)
    ensures Significant(s) == s
  {
    if s != [] {
      AllSignificant(s[1..]);
      assert s == [s[0]] + s[1..];
    }
  }

  lemma FoldInsignificant()
    ensures Significant(FOLD) == []
  {
    var newline: seq<byte>, space: seq<byte> := [0x0a], [SPACE];
    assert newline[1..] == [] && space[1..] == [];
    SignificantAppend(newline, space);
  }

  /** Folding disappears again when the folded text is read. */
  lemma {:induction false} FoldingIsSkipped(s: seq<byte>)
    requires Printing(s)
    ensures Significant(Fold72(s)) == s
  {
    AllSignificant(s);
    if |s| > LINELEN {
      var line, rest := s[..LINELEN], s[LINELEN..];
      assert s == line + rest;
      FoldingIsSkipped(rest);
      AllSignificant(line);
      FoldInsignificant();
      SignificantAppend(line + FOLD, Fold72(rest));
      SignificantAppend(line, FOLD);
    }
  }

  // ------------------------------------------------------------ the alphabet

  function Letter(v: nat): (c: byte)
    requires v < 64
    ensures c > SPACE && c != PAD && c != 0x3a
  {
    if v < 26 then 0x41 + v else if v < 52 then 0x61 + (v - 26) else if v < 62 then 0x30 + (v - 52)
    else if v == 62 then 0x2b else 0x2f
  }

  /** The value of a character for the decoder. Its table is never set at index 255. */
  function Value(c: byte): (v: byte)
    ensures v < 64 || v == INVALID
  {
    if 0x41 <= c <= 0x5a then c - 0x41 else if 0x61 <= c <= 0x7a then c - 0x61 + 26
    else if 0x30 <= c <= 0x39 then c - 0x30 + 52
    else if c == 0x2b then 62 else if c == 0x2f then 63
    else if c == PAD || c == 255 then 0 else INVALID
  }

  lemma ValueOfLetter(v: nat)
    requires v < 64
    ensures Value(Letter(v)) == v
  {
  }

  /** Only the alphabet and the padding are accepted, and by an oversight the byte 0xFF. */
  lemma AcceptedCharacters(c: byte)
    ensures Value(c) != INVALID <==> (exists v: nat | v < 64 :: c == Letter(v)) || c == PAD || c == 0xFF
  {
    if Value(c) != INVALID && c != PAD && c != 0xFF {
      assert c == Letter(Value(c));
    }
  }

  // ---------------------------------------------------------------- encoding

  /** The four characters for three bytes, of which only the first `n` count. */
  function Padded(igroup: seq<byte>, n: nat): (g: seq<byte>)
    requires |igroup| == 3
    ensures |g| == 4 && Printing(g)
  {
    var a, b, c := igroup[0], igroup[1], igroup[2];
    [Letter(a / 4), Letter(a % 4 * 16 + b / 16),
     if n > 1 then Letter(b % 16 * 4 + c / 64) else PAD,
     if n > 2 then Letter(c % 64) else PAD]
  }

  /** The four characters for the first three bytes of `x`, or for what there is of them. */
  function Group(x: seq<byte>): (g: seq<byte>)
    requires x != []
    ensures |g| == 4 && Printing(g)
  {
    Padded([x[0], if |x| > 1 then x[1] else 0, if |x| > 2 then x[2] else 0], |x|)
  }

  function Groups(x: seq<byte>): seq<byte> {
    if |x| == 0 then [] else if |x| <= 3 then Group(x) else Group(x) + Groups(x[3..])
  }

  lemma {:induction false} GroupsSignificant(x: seq<byte>)
    ensures Printing(Groups(x))
  {
    if |x| > 3 {
      GroupsSignificant(x[3..]);
    }
  }

  function Encoded(x: seq<byte>): seq<byte> {
    Fold72(Groups(x))
  }

  // ---------------------------------------------------------------- decoding

  datatype Decoding = Decoding(bytes: seq<byte>, ok: bool)

  function Triple(b: seq<byte>): (o: seq<byte>)
    requires |b| == 4 && forall i :: 0 <= i < 4 ==> b[i] < 64
    ensures |o| == 3
  {
    [b[0] * 4 + b[1] / 16, b[1] % 16 * 16 + b[2] / 4, b[2] % 4 * 64 + b[3]]
  }

  function Values(a: seq<byte>): (v: seq<byte>)
    ensures |v| == |a| && forall i :: 0 <= i < |a| ==> v[i] == Value(a[i])
  {
    seq(|a|, i requires 0 <= i < |a| => Value(a[i]))
  }

  predicate Legal(a: seq<byte>) {
    forall i :: 0 <= i < |a| ==> Value(a[i]) != INVALID
  }

  /** Decoding of significant characters: it stops after a padded group, and it fails at the first
   * group that is incomplete or has an invalid character. */
  function DecodeGroups(s: seq<byte>): Decoding {
    if |s| < 4 || !Legal(s[..4]) then Decoding([], false) else
    var o := Triple(Values(s[..4]));
    if s[2] == PAD then Decoding(o[..1], true)
    else if s[3] == PAD then Decoding(o[..2], true)
    else
      var rest := DecodeGroups(s[4..]);
      Decoding(o + rest.bytes, rest.ok)
  }

  function Decoded(text: seq<byte>): seq<byte> {
    Fold72(DecodeGroups(Significant(text)).bytes)
  }

  predicate Accepted(text: seq<byte>) {
    DecodeGroups(Significant(text)).ok
  }

  lemma GroupRoundTrip(x: seq<byte>, behind: seq<byte>)
    requires x != []
    ensures var s := Group(x) + behind; var b := Values(s[..4]);
            && s[..4] == Group(x) && s[4..] == behind && Legal(s[..4])
            && Triple(b)[..if |x| < 3 then |x| else 3] == x[..if |x| < 3 then |x| else 3]
            && (s[2] == PAD <==> |x| == 1) && (s[3] == PAD <==> |x| <= 2)
  {
    hide Letter, Value;
    var s := Group(x) + behind;
    var a, b, c := x[0], if |x| > 1 then x[1] else 0, if |x| > 2 then x[2] else 0;
    ValueOfLetter(a / 4);
    ValueOfLetter(a % 4 * 16 + b / 16);
    ValueOfLetter(b % 16 * 4 + c / 64);
    ValueOfLetter(c % 64);
    PadIsZero();
    assert s[..4] == Group(x) && s[4..] == behind;
    TripleOfBytes(a, b, c);
    assert Values(s[..4]) == [a / 4, a % 4 * 16 + b / 16, b % 16 * 4 + c / 64, c % 64];
  }

  lemma PadIsZero()
    ensures Value(PAD) == 0
  {
  }

  lemma TripleOfBytes(a: byte, b: byte, c: byte)
    ensures Triple([a / 4, a % 4 * 16 + b / 16, b % 16 * 4 + c / 64, c % 64]) == [a, b, c]
  {
    Digits(a % 4, b / 16);
    Digits(c / 64, b % 16);
  }

  lemma Digits(two: nat, four: nat)
    requires two < 4 && four < 16
    ensures (two * 16 + four) / 16 == two && (two * 16 + four) % 16 == four
    ensures (four * 4 + two) / 4 == four && (four * 4 + two) % 4 == two
  {
  }

  lemma DecodeGroup(x: seq<byte>, behind: seq<byte>)
    requires x != []
    ensures var rest := DecodeGroups(behind);
            DecodeGroups(Group(x) + behind)
            == if |x| < 3 then Decoding(x, true) else Decoding(x[..3] + rest.bytes, rest.ok)
  {
    hide Group, Values, Triple;
    GroupRoundTrip(x, behind);
    var o := Triple(Values((Group(x) + behind)[..4]));
    if |x| < 3 {
      assert x[..|x|] == x;
    } else {
      assert o[..3] == o;
    }
  }

  lemma {:induction false} GroupsRoundTrip(x: seq<byte>)
    ensures DecodeGroups(Groups(x)) == Decoding(x, |x| % 3 != 0)
  {
    hide Group, DecodeGroups;
    NothingDecoded();
    if 0 < |x| <= 3 {
      DecodeGroup(x, []);
      assert Group(x) + [] == Group(x);
      assert x[..|x|] + [] == x;
    } else if |x| > 3 {
      DecodeGroup(x, Groups(x[3..]));
      GroupsRoundTrip(x[3..]);
      assert x == x[..3] + x[3..];
    }
  }

  lemma NothingDecoded()
    ensures DecodeGroups([]) == Decoding([], false)
  {
  }

  /** Decoding undoes encoding but folds the result, and reports success only if it saw padding. */
  lemma RoundTrip(x: seq<byte>)
    ensures Decoded(Encoded(x)) == Fold72(x)
    ensures Accepted(Encoded(x)) <==> |x| % 3 != 0
    ensures Decoded(Encoded(x)) == x <==> |x| <= LINELEN
  {
    hide Groups, DecodeGroups, Fold72, Significant;
    GroupsSignificant(x);
    FoldingIsSkipped(Groups(x));
    GroupsRoundTrip(x);
    FoldLength(x);
  }

  lemma {:induction false} FoldLength(x: seq<byte>)
    ensures |Fold72(x)| >= |x|
    ensures Fold72(x) == x <==> |x| <= LINELEN
  {
    if |x| > LINELEN {
      FoldLength(x[LINELEN..]);
    }
  }

  // ----------------------------------------------------------- the algorithms

  class Input {
    const text: seq<byte>
    var pos: nat

    predicate Valid()
      reads this
    {
      pos <= |text|
    }

    constructor (text: seq<byte>)
      ensures Valid() && this.text == text && pos == 0
    {
      this.text, pos := text, 0;
    }

    method Next() returns (c: int)
      requires Valid()
      modifies this
      ensures Valid()
      ensures if old(pos) == |text| then c == EOF && pos == old(pos) else c == text[old(pos)] && pos == old(pos) + 1
    {
      if pos == |text| {
        return EOF;
      }
      c, pos := text[pos], pos + 1;
    }
  }

  /** Output that begins a new line when the line is full. */
  class Output {
    var text: seq<byte>
    var linelength: nat
    ghost var put: seq<byte>

    ghost predicate Valid()
      reads this
    {
      && text == Fold72(put)
      && linelength == if put == [] then 0 else (|put| - 1) % LINELEN + 1
    }

    constructor ()
      ensures Valid() && put == []
    {
      text, linelength, put := [], 0, [];
    }

    method Put(c: byte)
      requires Valid()
      modifies this
      ensures Valid() && put == old(put) + [c]
    {
      FoldSnoc(put, c);
      if linelength >= LINELEN {
        text := text + FOLD;
        linelength := 0;
      }
      text := text + [c];
      linelength := linelength + 1;
      put := put + [c];
    }
  }

  /** Encoder and decoder overwrite the same table. Whatever it held before does not matter, except
   * for its last place. */
  class Codec {
    const dtable: array<byte>

    ghost predicate Valid()
      reads this, dtable
    {
      dtable.Length == 256 && dtable[255] == 0
    }

    constructor ()
      ensures Valid() && fresh(dtable)
    {
      dtable := new byte[256](_ => 0);
    }

    method FillEncode()
      requires Valid()
      modifies dtable
      ensures Valid() && forall v: nat :: v < 64 ==> dtable[v] == Letter(v)
    {
      for i := 0 to 26
        invariant Valid()
        invariant forall v: nat :: v < i ==> dtable[v] == Letter(v)
        invariant forall v: nat :: 26 <= v < 26 + i ==> dtable[v] == Letter(v)
      {
        dtable[i] := 0x41 + i;
        dtable[26 + i] := 0x61 + i;
      }
      for i := 0 to 10
        invariant Valid() && forall v: nat :: v < 52 + i ==> dtable[v] == Letter(v)
      {
        dtable[52 + i] := 0x30 + i;
      }
      dtable[62] := 0x2b;
      dtable[63] := 0x2f;
    }

    method FillDecode()
      requires Valid()
      modifies dtable
      ensures Valid() && forall c: byte :: dtable[c] == Value(c)
    {
      for i := 0 to 255
        invariant Valid() && forall c: nat :: c < i ==> dtable[c] == INVALID
      {
        dtable[i] := INVALID;
      }
      for i := 0x41 to 0x5b
        invariant Valid()
        invariant forall c: nat :: c < 255 ==> dtable[c] == if 0x41 <= c < i then c - 0x41 else INVALID
      {
        dtable[i] := i - 0x41;
      }
      for i := 0x61 to 0x7b
        invariant Valid()
        invariant forall c: nat :: c < 255 ==> dtable[c] == if 0x41 <= c <= 0x5a then c - 0x41
                                                            else if 0x61 <= c < i then c - 0x61 + 26 else INVALID
      {
        dtable[i] := i - 0x61 + 26;
      }
      for i := 0x30 to 0x3a
        invariant Valid()
        invariant forall c: nat :: c < 255 ==> dtable[c] == if 0x41 <= c <= 0x5a then c - 0x41
                                                            else if 0x61 <= c <= 0x7a then c - 0x61 + 26
                                                            else if 0x30 <= c < i then c - 0x30 + 52 else INVALID
      {
        dtable[i] := i - 0x30 + 52;
      }
      dtable[0x2b] := 62;
      dtable[0x2f] := 63;
      dtable[PAD] := 0;
    }

    method EncodeStream(inchar: Input, ochar: Output)
      requires Valid() && inchar.Valid() && inchar.pos == 0 && ochar.Valid()
      modifies dtable, inchar, ochar
      ensures Valid() && ochar.Valid() && ochar.put == old(ochar.put) + Groups(inchar.text)
    {
      hide Groups, Letter, Fold72;
      FillEncode();
      ghost var x, before := inchar.text, ochar.put;
      var hiteof := false;
      NoGroups(x, |x|);
      assert x[0..] == x;
      while !hiteof
        invariant Valid() && inchar.Valid() && ochar.Valid()
        invariant forall v: nat :: v < 64 ==> dtable[v] == Letter(v)
        invariant ochar.put + Groups(x[inchar.pos..]) == before + Groups(x)
        invariant hiteof ==> inchar.pos == |x|
        decreases !hiteof, |x| - inchar.pos
      {
        ghost var pos, put := inchar.pos, ochar.put;
        var group;
        group, hiteof := NextGroup(inchar);
        PutAll(ochar, group);
        assert (put + group) + Groups(x[inchar.pos..]) == put + Groups(x[pos..]);
      }
    }

    /** The characters for the next bytes; none at the end of the input. */
    method NextGroup(inchar: Input) returns (group: seq<byte>, hiteof: bool)
      requires Valid() && inchar.Valid() && forall v: nat :: v < 64 ==> dtable[v] == Letter(v)
      modifies inchar
      ensures inchar.Valid() && inchar.pos >= old(inchar.pos)
      ensures Groups(inchar.text[old(inchar.pos)..]) == group + Groups(inchar.text[inchar.pos..])
      ensures if hiteof then inchar.pos == |inchar.text| else inchar.pos > old(inchar.pos)
    {
      hide Group, Groups, Letter;
      ghost var x, pos := inchar.text, inchar.pos;
      var igroup: seq<byte>, n;
      igroup, n, hiteof := ReadGroup(inchar);
      GroupsStep(x, pos, n);
      group := [];
      if n > 0 {
        group := LookUp(igroup, n);
        IsGroup(x, pos, igroup, n);
      } else {
        NoGroups(x, pos);
      }
    }

    method LookUp(igroup: seq<byte>, n: nat) returns (ogroup: seq<byte>)
      requires Valid() && |igroup| == 3 && 0 < n <= 3 && forall v: nat :: v < 64 ==> dtable[v] == Letter(v)
      ensures ogroup == Padded(igroup, n)
    {
      ogroup := [dtable[igroup[0] / 4],
                 dtable[igroup[0] % 4 * 16 + igroup[1] / 16],
                 dtable[igroup[1] % 16 * 4 + igroup[2] / 64],
                 dtable[igroup[2] % 64]];
      if n < 3 {
        ogroup := ogroup[3 := PAD];
        if n < 2 {
          ogroup := ogroup[2 := PAD];
        }
      }
    }

    method DecodeStream(inchar: Input, ochar: Output) returns (ok: bool)
      requires Valid() && inchar.Valid() && inchar.pos == 0 && ochar.Valid()
      modifies dtable, inchar, ochar
      ensures Valid() && ochar.Valid()
      ensures var d := DecodeGroups(Significant(inchar.text));
              ok == d.ok && ochar.put == old(ochar.put) + d.bytes
    {
      hide Value, Significant, Triple;
      FillDecode();
      ghost var whole := DecodeGroups(Significant(inchar.text));
      ghost var before := ochar.put;
      assert inchar.text[0..] == inchar.text;
      while true
        invariant Valid() && inchar.Valid() && ochar.Valid()
        invariant forall c: byte :: dtable[c] == Value(c)
        invariant ochar.put + DecodeGroups(Significant(inchar.text[inchar.pos..])).bytes == before + whole.bytes
        invariant DecodeGroups(Significant(inchar.text[inchar.pos..])).ok == whole.ok
        decreases |inchar.text| - inchar.pos
      {
        ghost var s, put := Significant(inchar.text[inchar.pos..]), ochar.put;
        var a, complete := NextSignificant(inchar);
        if !complete {
          assert put + [] == put;
          return false;
        }
        assert a == s[..4] && Significant(inchar.text[inchar.pos..]) == s[4..];
        var b := Values(a);
        var o := [b[0] * 4 + b[1] / 16, b[1] % 16 * 16 + b[2] / 4, b[2] % 4 * 64 + b[3]];
        var i := if a[2] == PAD then 1 else if a[3] == PAD then 2 else 3;
        PutAll(ochar, o[..i]);
        TripleIs(b);
        if i < 3 {
          return true;
        }
        assert (put + o) + DecodeGroups(s[4..]).bytes == put + DecodeGroups(s).bytes;
      }
    }

    /** Four significant characters, unless the input ends or an invalid character turns up. */
    method NextSignificant(inchar: Input) returns (a: seq<byte>, complete: bool)
      requires Valid() && inchar.Valid() && forall c: byte :: dtable[c] == Value(c)
      modifies inchar
      ensures inchar.Valid()
      ensures var s := Significant(inchar.text[old(inchar.pos)..]);
              && complete == (|s| >= 4 && Legal(s[..4]))
              && (complete ==> a == s[..4] && Significant(inchar.text[inchar.pos..]) == s[4..]
                               && inchar.pos > old(inchar.pos))
    {
      hide Value, Significant;
      ghost var s := Significant(inchar.text[inchar.pos..]);
      a := [];
      for i := 0 to 4
        invariant inchar.Valid() && |a| == i <= |s| && a == s[..i] && Legal(a)
        invariant Significant(inchar.text[inchar.pos..]) == s[i..]
        invariant inchar.pos >= old(inchar.pos) + i
      {
        var c := Insig(inchar);
        if c == EOF {
          return a, false;
        }
        assert c == s[i];
        if dtable[c] >= INVALID {
          assert |s| >= 4 ==> Value(s[..4][i]) == INVALID;
          return a, false;
        }
        a := a + [c];
      }
      complete := true;
    }
  }

  lemma TripleIs(b: seq<byte>)
    requires |b| == 4 && forall i :: 0 <= i < 4 ==> b[i] < 64
    ensures Triple(b) == [b[0] * 4 + b[1] / 16, b[1] % 16 * 16 + b[2] / 4, b[2] % 4 * 64 + b[3]]
  {
  }

  lemma IsGroup(x: seq<byte>, pos: nat, igroup: seq<byte>, n: nat)
    requires pos < |x| && n == (if |x| - pos < 3 then |x| - pos else 3) && |igroup| == 3
    requires forall k :: 0 <= k < 3 ==> igroup[k] == if k < n then x[pos + k] else 0
    ensures Padded(igroup, n) == Group(x[pos..])
  {
  }

  lemma NoGroups(x: seq<byte>, pos: nat)
    requires pos == |x|
    ensures Groups(x[pos..]) == []
  {
  }

  lemma GroupsStep(x: seq<byte>, pos: nat, n: nat)
    requires pos <= |x| && n == if |x| - pos < 3 then |x| - pos else 3
    ensures Groups(x[pos..]) == if n == 0 then [] else Group(x[pos..]) + Groups(x[pos + n..])
  {
    if n == 3 && |x| - pos > 3 {
      assert x[pos..][3..] == x[pos + 3..];
    } else {
      assert x[pos + n..] == [];
    }
  }

  /** Up to three bytes; what is missing is zero. */
  method ReadGroup(inchar: Input) returns (igroup: seq<byte>, n: nat, hiteof: bool)
    requires inchar.Valid()
    modifies inchar
    ensures inchar.Valid() && |igroup| == 3
    ensures var rest := |inchar.text| - old(inchar.pos);
            && n == (if rest < 3 then rest else 3) && hiteof == (rest < 3) && inchar.pos == old(inchar.pos) + n
    ensures forall k :: 0 <= k < 3 ==> igroup[k] == if k < n then inchar.text[old(inchar.pos) + k] else 0
  {
    igroup, n, hiteof := [0, 0, 0], 0, false;
    while n < 3
      invariant inchar.Valid() && n <= 3 && |igroup| == 3 && inchar.pos == old(inchar.pos) + n
      invariant forall k :: 0 <= k < 3 ==> igroup[k] == if k < n then inchar.text[old(inchar.pos) + k] else 0
    {
      var c := inchar.Next();
      if c == EOF {
        return igroup, n, true;
      }
      igroup := igroup[n := c];
      n := n + 1;
    }
  }

  method PutAll(ochar: Output, group: seq<byte>)
    requires ochar.Valid()
    modifies ochar
    ensures ochar.Valid() && ochar.put == old(ochar.put) + group
  {
    hide Fold72;
    assert old(ochar.put) + group[..0] == old(ochar.put);
    for i := 0 to |group|
      invariant ochar.Valid() && ochar.put == old(ochar.put) + group[..i]
    {
      ochar.Put(group[i]);
      assert group[..i + 1] == group[..i] + [group[i]];
    }
    assert group[..|group|] == group;
  }

  method Insig(inchar: Input) returns (c: int)
    requires inchar.Valid()
    modifies inchar
    ensures inchar.Valid() && inchar.pos >= old(inchar.pos)
    ensures var s := Significant(inchar.text[old(inchar.pos)..]);
            if s == [] then c == EOF
            else c == s[0] && inchar.pos > old(inchar.pos) && Significant(inchar.text[inchar.pos..]) == s[1..]
  {
    while true
      invariant inchar.Valid() && inchar.pos >= old(inchar.pos)
      invariant Significant(inchar.text[inchar.pos..]) == Significant(inchar.text[old(inchar.pos)..])
      decreases |inchar.text| - inchar.pos
    {
      ghost var pos := inchar.pos;
      c := inchar.Next();
      if c == EOF || c > SPACE {
        return;
      }
      assert inchar.text[pos..][1..] == inchar.text[inchar.pos..];
    }
  }

  method Base64Encode(codec: Codec, text: seq<byte>) returns (out: seq<byte>)
    requires codec.Valid()
    modifies codec.dtable
    ensures codec.Valid() && out == Encoded(text)
  {
    var input := new Input(text);
    var output := new Output();
    codec.EncodeStream(input, output);
    assert [] + Groups(text) == Groups(text);
    out := output.text;
  }

  method Base64Decode(codec: Codec, text: seq<byte>) returns (out: seq<byte>, ok: bool)
    requires codec.Valid()
    modifies codec.dtable
    ensures codec.Valid() && out == Decoded(text) && ok == Accepted(text)
  {
    var input := new Input(text);
    var output := new Output();
    ok := codec.DecodeStream(input, output);
    ghost var d := DecodeGroups(Significant(text));
    assert [] + d.bytes == d.bytes;
    out := output.text;
  }
}
