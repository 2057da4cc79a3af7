/** Text files as lists of lines. */
module TextLines {
  import opened Bytes

  const NL: byte := 0x0a

  /** A text in the bytes of its characters. */
  function Text(s: string): seq<byte>
    requires forall k :: 0 <= k < |s| ==> s[k] < 128 as char
  {
    seq(|s|, k requires 0 <= k < |s| => s[k] as int)
  }

  // White space, as streams skip it.
  predicate Ws(c: byte) {
    c == SPACE || 0x09 <= c <= 0x0d
  }

  function SkipWs(s: seq<byte>): seq<byte> {
    if s != [] && Ws(s[0]) then SkipWs(s[1..]) else s
  }

  /** The first place of `c`, or the length of `s`. */
  function Find(s: seq<byte>, c: byte): (k: nat)
    ensures k <= |s| && (k < |s| ==> s[k] == c) && forall i :: 0 <= i < k ==> s[i] != c
  {
    if s == [] || s[0] == c then 0 else 1 + Find(s[1..], c)
  }

  predicate Without(s: seq<byte>, c: byte) {
    forall i :: 0 <= i < |s| ==> s[i] != c
  }

  lemma FindIs(a: seq<byte>, c: byte, b: seq<byte>)
    requires Without(a, c)
    ensures Find(a + [c] + b, c) == |a|
  {
    var s, k := a + [c] + b, Find(a + [c] + b, c);
    assert s[|a|] == c;
    assert forall i :: 0 <= i < |a| ==> s[i] == a[i];
  }

  /** What successive calls of getline deliver. */
  function Lines(text: seq<byte>): seq<seq<byte>>
    decreases |text|
  {
    if text == [] then [] else
    var k := Find(text, NL);
    [text[..k]] + Lines(if k < |text| then text[k + 1..] else [])
  }

  lemma FirstLine(line: seq<byte>, rest: seq<byte>)
    requires Without(line, NL)
    ensures Lines(line + [NL] + rest) == [line] + Lines(rest)
  {
    var text := line + [NL] + rest;
    FindIs(line, NL, rest);
    assert text[..|line|] == line && text[|line| + 1..] == rest;
  }

  lemma {:induction false} FindAt(text: seq<byte>, pos: nat, end: nat)
    requires pos <= end <= |text| && (end < |text| ==> text[end] == NL)
    requires forall k :: pos <= k < end ==> text[k] != NL
    ensures Find(text[pos..], NL) == end - pos
    decreases end - pos
  {
    if pos < end {
      FindAt(text, pos + 1, end);
      assert text[pos..][0] == text[pos] && text[pos..][1..] == text[pos + 1..];
    }
  }

  lemma LinesStep(text: seq<byte>)
    requires text != []
    ensures var k := Find(text, NL);
            Lines(text) == [text[..k]] + Lines(if k < |text| then text[k + 1..] else [])
  {
    hide Find;
  }

  /** The line that begins at `pos`, and the lines behind it. */
  lemma LineAt(text: seq<byte>, pos: nat, end: nat)
    requires pos <= end <= |text| && pos < |text| && (end < |text| ==> text[end] == NL)
    requires forall k :: pos <= k < end ==> text[k] != NL
    ensures Lines(text[pos..]) == [text[pos..end]] + Lines(text[if end < |text| then end + 1 else end..])
  {
    hide Find, Lines;
    FindAt(text, pos, end);
    LinesStep(text[pos..]);
    DropSlice(text, pos, 0, end - pos);
    if end < |text| {
      DropDrop(text, pos, end - pos + 1);
    } else {
      assert text[end..] == [];
    }
  }

  class Stream {
    const text: seq<byte>
    var pos: nat

    predicate Valid()
      reads this
    {
      pos <= |text|
    }

    function Rest(): seq<seq<byte>>
      requires Valid()
      reads this
    {
      Lines(text[pos..])
    }

    constructor (text: seq<byte>)
      ensures Valid() && this.text == text && Rest() == Lines(text)
    {
      this.text, pos := text, 0;
      new;
      assert text[0..] == text;
    }

    method GetLine() returns (line: seq<byte>, ok: bool)
      requires Valid()
      modifies this
      ensures Valid() && ok == (old(Rest()) != [])
      ensures if ok then line == old(Rest())[0] && Rest() == old(Rest())[1..] && pos > old(pos)
              else Rest() == [] && pos == old(pos)
    {
      hide Lines;
      NoLines();
      if pos == |text| {
        assert text[pos..] == [];
        return [], false;
      }
      var end := pos;
      while end < |text| && text[end] != NL
        invariant pos <= end <= |text| && pos == old(pos)
        invariant forall k :: pos <= k < end ==> text[k] != NL
      {
        end := end + 1;
      }
      LineAt(text, pos, end);
      line, ok := text[pos..end], true;
      pos := if end < |text| then end + 1 else end;
    }
  }

  lemma NoLines()
    ensures Lines([]) == []
  {
  }

  lemma {:induction false} LinesAppend(a: seq<byte>, rest: seq<byte>)
    ensures Lines(a + [NL] + rest) == Lines(a + [NL]) + Lines(rest)
    decreases |a|
  {
    hide Lines;
    var k := Find(a, NL);
    if k == |a| {
      FirstLine(a, rest);
      FirstLine(a, []);
      NoLines();
      assert a + [NL] + [] == a + [NL];
    } else {
      var line, more := a[..k], a[k + 1..];
      FirstLine(line, more + [NL] + rest);
      FirstLine(line, more + [NL]);
      LinesAppend(more, rest);
      assert a == line + [NL] + more;
      assert a + [NL] + rest == line + [NL] + (more + [NL] + rest);
      assert a + [NL] == line + [NL] + (more + [NL]);
    }
  }

  /** No line holds a newline. */
  lemma {:induction false} LinesWithout(text: seq<byte>, k: nat)
    requires k < |Lines(text)|
    ensures Without(Lines(text)[k], NL)
    decreases |text|
  {
    hide Lines;
    NoLines();
    LinesStep(text);
    if k > 0 {
      var n := Find(text, NL);
      LinesWithout(if n < |text| then text[n + 1..] else [], k - 1);
    }
  }

  /** Adds what a last line without newline lacks. */
  function Ended(text: seq<byte>): seq<byte> {
    if text == [] || text[|text| - 1] == NL then text else text + [NL]
  }

  lemma EndedBehind(line: seq<byte>, more: seq<byte>)
    ensures Ended(line + [NL] + more) == line + [NL] + Ended(more)
  {
    var text := line + [NL] + more;
    if more == [] {
      assert text[|text| - 1] == NL;
    } else {
      assert text[|text| - 1] == more[|more| - 1];
      assert line + [NL] + (more + [NL]) == text + [NL];
    }
  }

  lemma TextOfCons(line: seq<byte>, lines: seq<seq<byte>>)
    ensures TextOf([line] + lines) == line + [NL] + TextOf(lines)
  {
    assert ([line] + lines)[1..] == lines;
  }

  /** The lines are the text, except that its last newline may be missing. */
  lemma {:induction false} LinesAre(text: seq<byte>)
    ensures forall k :: 0 <= k < |Lines(text)| ==> Without(Lines(text)[k], NL)
    ensures TextOf(Lines(text)) == if text == [] || text[|text| - 1] == NL then text else text + [NL]
    decreases |text|
  {
    hide Lines, Find, TextOf;
    forall k | 0 <= k < |Lines(text)| ensures Without(Lines(text)[k], NL) {
      LinesWithout(text, k);
    }
    NoLines();
    NoText();
    if text != [] {
      LinesStep(text);
      var k := Find(text, NL);
      if k < |text| {
        var more := text[k + 1..];
        LinesAre(more);
        TextOfCons(text[..k], Lines(more));
        EndedBehind(text[..k], more);
        assert text == text[..k] + [NL] + more;
      } else {
        TextOfCons(text, []);
        assert text[..k] == text && text + [NL] + [] == text + [NL];
      }
    }
  }

  // ------------------------------------------------------------ printed lines

  /** Each line followed by a newline. */
  function TextOf(lines: seq<seq<byte>>): seq<byte> {
    if lines == [] then [] else lines[0] + [NL] + TextOf(lines[1..])
  }

  lemma {:induction false} TextOfAppend(a: seq<seq<byte>>, b: seq<seq<byte>>)
    ensures TextOf(a + b) == TextOf(a) + TextOf(b)
  {
    if a == [] {
      assert a + b == b;
    } else {
      assert (a + b)[1..] == a[1..] + b;
      TextOfAppend(a[1..], b);
    }
  }

  lemma NoText()
    ensures TextOf([]) == []
  {
  }

  lemma TextOfSnoc(a: seq<seq<byte>>, line: seq<byte>)
    ensures TextOf(a + [line]) == TextOf(a) + (line + [NL])
  {
    TextOfAppend(a, [line]);
    assert [line][1..] == [];
  }

  predicate Single(lines: seq<seq<byte>>) {
    forall k :: 0 <= k < |lines| ==> Without(lines[k], NL)
  }

  /** Printed lines are read back, if none has a newline in it. */
  lemma {:induction false} LinesOfText(lines: seq<seq<byte>>)
    requires Single(lines)
    ensures Lines(TextOf(lines)) == lines
  {
    hide Lines;
    if lines == [] {
      NoLines();
    } else {
      FirstLine(lines[0], TextOf(lines[1..]));
      LinesOfText(lines[1..]);
    }
  }
}
