/** Reading LDIF that somebody else has written: any attributes, blanks and line ends. */
module LdifReading {
  import opened Bytes
  import opened TextLines
  import opened Base64
  import opened Ldif
  import opened LdifRoundTrip

  /** One attribute in the lines of a record, or a line that is none. The pieces of a coded value are in lines of
   * their own, each but the first behind a blank. */
  datatype Entry =
    | Simple(attr: seq<byte>, filler: seq<byte>, value: seq<byte>)
    | Coded(attr: seq<byte>, filler: seq<byte>, first: seq<byte>, others: seq<seq<byte>>)
    | Remark(text: seq<byte>)

  predicate Filler(s: seq<byte>) {
    forall k :: 0 <= k < |s| ==> s[k] == 0x20 || s[k] == 0x3a
  }

  predicate StartsText(s: seq<byte>) {
    s == [] || (s[0] != 0x20 && s[0] != 0x3a)
  }

  predicate GoodName(attr: seq<byte>) {
    attr != [] && attr[0] != 0x20 && Without(attr, 0x3a)
  }

  /** A value without filler may not begin with a colon, or it is a coded one. */
  predicate Readable(e: Entry) {
    match e
    case Simple(attr, filler, value) =>
      GoodName(attr) && Filler(filler) && StartsText(value) && (filler != [] ==> filler[0] == 0x20)
    case Coded(attr, filler, first, _) => GoodName(attr) && Filler(filler) && StartsText(first)
    case Remark(text) => GoodName(text)
  }

  function Blanked(pieces: seq<seq<byte>>): seq<seq<byte>> {
    seq(|pieces|, k requires 0 <= k < |pieces| => [0x20] + pieces[k])
  }

  function EntryLines(e: Entry): seq<seq<byte>> {
    match e
    case Simple(attr, filler, value) => [attr + ([0x3a] + (filler + value))]
    case Coded(attr, filler, first, others) => [attr + ([0x3a, 0x3a] + (filler + first))] + Blanked(others)
    case Remark(text) => [text]
  }

  function AllEntryLines(entries: seq<Entry>): seq<seq<byte>> {
    if entries == [] then [] else EntryLines(entries[0]) + AllEntryLines(entries[1..])
  }

  /** What is written for an entry: nothing without a value, and a coded one decoded from all its pieces. */
  function Meant(e: Entry): seq<Write> {
    match e
    case Simple(attr, _, value) => Unless(attr, value)
    case Coded(attr, _, first, others) => Unless(attr, Decoded(first + Flatten(others)))
    case Remark(_) => []
  }

  function Unless(attr: seq<byte>, value: seq<byte>): seq<Write> {
    if value == [] then [] else [Write(attr, value)]
  }

  function AllMeant(entries: seq<Entry>): seq<Write> {
    if entries == [] then [] else Meant(entries[0]) + AllMeant(entries[1..])
  }

  // ---------------------------------------------------------------- one line

  lemma {:induction false} SkipFiller(line: seq<byte>, i: nat, j: nat)
    requires i <= j <= |line| && forall k :: i <= k < j ==> line[k] == 0x20 || line[k] == 0x3a
    requires j < |line| ==> line[j] != 0x20 && line[j] != 0x3a
    ensures Skip(line, i) == j
    decreases j - i
  {
    if i < j {
      SkipFiller(line, i + 1, j);
    }
  }

  lemma Places(a: seq<byte>, b: seq<byte>, c: seq<byte>)
    ensures var s, i, j := a + ([0x3a] + (b + c)), |a| + 1, |a| + 1 + |b|;
            && s == a + [0x3a] + (b + c) && s[..|a|] == a && s[j..] == c
            && (forall k :: i <= k < j ==> s[k] == b[k - i]) && (j < |s| ==> s[j] == c[0])
            && At(s, i) == At(b + c, 0) && (a != [] ==> s[0] == a[0])
  {
  }

  lemma Split(attr: seq<byte>, filler: seq<byte>, value: seq<byte>)
    requires GoodName(attr) && Filler(filler) && StartsText(value)
    ensures var line := attr + ([0x3a] + (filler + value));
            && Find(line, COLON) == |attr| && line[..|attr|] == attr
            && Skip(line, |attr| + 1) == |attr| + 1 + |filler| && line[|attr| + 1 + |filler|..] == value
            && line[0] != SPACE && At(line, |attr| + 1) == At(filler + value, 0)
  {
    hide Find, Skip, At;
    var line := attr + ([0x3a] + (filler + value));
    Places(attr, filler, value);
    FindIs(attr, COLON, filler + value);
    SkipFiller(line, |attr| + 1, |attr| + 1 + |filler|);
  }

  lemma SimpleStep(st: State, e: Entry)
    requires e.Simple? && Readable(e)
    ensures var line := EntryLines(e)[0];
            line != [] && Step(st, line) == State(WithWrite(Flush(st).written, e.attr, e.value), false, e.attr,
                                                  Flush(st).coded)
  {
    hide Find, Skip, Flush;
    Split(e.attr, e.filler, e.value);
  }

  lemma CodedStep(st: State, e: Entry)
    requires e.Coded? && Readable(e)
    ensures var line := EntryLines(e)[0];
            line != [] && Step(st, line) == State(Flush(st).written, true, e.attr, e.first)
  {
    hide Find, Skip, Flush;
    Split(e.attr, [0x3a] + e.filler, e.first);
    assert [0x3a] + ([0x3a] + e.filler + e.first) == [0x3a, 0x3a] + (e.filler + e.first);
  }

  lemma RemarkStep(st: State, e: Entry)
    requires e.Remark? && Readable(e)
    ensures Step(st, e.text) == Flush(st)
  {
    hide Flush;
    var k := Find(e.text, COLON);
  }

  // ------------------------------------------------------------ coded values

  function Tail(pieces: seq<seq<byte>>): seq<byte> {
    if pieces == [] then [] else [NL, 0x20] + pieces[0] + Tail(pieces[1..])
  }

  lemma {:induction false} CollectPieces(st: State, pieces: seq<seq<byte>>, rest: seq<seq<byte>>)
    requires st.inField
    ensures Run(st, Blanked(pieces) + rest) == Run(st.(coded := st.coded + Tail(pieces)), rest)
    ensures Unread(Blanked(pieces) + rest) == Unread(rest)
    decreases |pieces|
  {
    hide Flush, Find, Skip;
    if pieces == [] {
      assert Blanked([]) + rest == rest && st.coded + [] == st.coded;
    } else {
      var line: seq<byte> := [0x20] + pieces[0];
      var more := Blanked(pieces[1..]) + rest;
      assert Blanked(pieces) + rest == [line] + more;
      assert ([line] + more)[1..] == more;
      CollectPieces(st.(coded := st.coded + [NL] + line), pieces[1..], rest);
      assert st.coded + [NL] + line + Tail(pieces[1..]) == st.coded + ([NL, 0x20] + pieces[0] + Tail(pieces[1..]));
    }
  }

  lemma LineEndInsignificant()
    ensures Significant([NL, 0x20]) == []
  {
    assert [NL, 0x20][1..] == [0x20] && [0x20][1..] == [];
  }

  lemma {:induction false} TailSignificant(pieces: seq<seq<byte>>)
    ensures Significant(Tail(pieces)) == Significant(Flatten(pieces))
  {
    if pieces != [] {
      var p, rest := pieces[0], pieces[1..];
      TailSignificant(rest);
      LineEndInsignificant();
      SignificantAppend([NL, 0x20] + p, Tail(rest));
      SignificantAppend([NL, 0x20], p);
      SignificantAppend(p, Flatten(rest));
    }
  }

  /** It does not matter where a coded value was broken into lines. */
  lemma SameDecoded(first: seq<byte>, pieces: seq<seq<byte>>)
    ensures Decoded(first + Tail(pieces)) == Decoded(first + Flatten(pieces))
  {
    hide Significant, DecodeGroups, Fold72;
    TailSignificant(pieces);
    SignificantAppend(first, Tail(pieces));
    SignificantAppend(first, Flatten(pieces));
  }

  // -------------------------------------------------------------- all entries

  lemma Appended(written: seq<Write>, attr: seq<byte>, data: seq<byte>)
    requires attr != []
    ensures WithWrite(written, attr, data) == written + Unless(attr, data)
  {
    assert written + [] == written;
  }

  lemma ReadEntry(st: State, e: Entry, rest: seq<seq<byte>>) returns (after: State)
    requires Readable(e)
    ensures Run(st, EntryLines(e) + rest) == Run(after, rest) && Unread(EntryLines(e) + rest) == Unread(rest)
    ensures Flush(after).written == Flush(st).written + Meant(e)
  {
    hide Step, Readable, Decoded, WithWrite, Unless, Run, Unread, Blanked;
    var lines := EntryLines(e);
    NameNotEmpty(e);
    match e {
      case Simple(attr, _, value) =>
        SimpleStep(st, e);
        after := Step(st, lines[0]);
        OneLine(st, lines[0], rest);
        Appended(Flush(st).written, attr, value);
      case Coded(attr, _, first, others) =>
        CodedStep(st, e);
        var begun := State(Flush(st).written, true, attr, first);
        OneLine(st, lines[0], Blanked(others) + rest);
        assert lines + rest == [lines[0]] + (Blanked(others) + rest);
        CollectPieces(begun, others, rest);
        after := begun.(coded := first + Tail(others));
        SameDecoded(first, others);
        Appended(Flush(st).written, attr, Decoded(first + Flatten(others)));
      case Remark(text) =>
        RemarkStep(st, e);
        after := Flush(st);
        OneLine(st, text, rest);
        assert Flush(st).written + [] == Flush(st).written;
    }
  }

  lemma NameNotEmpty(e: Entry)
    requires Readable(e)
    ensures if e.Remark? then e.text != [] else e.attr != []
  {
  }

  lemma OneLine(st: State, line: seq<byte>, rest: seq<seq<byte>>)
    requires line != []
    ensures Run(st, [line] + rest) == Run(Step(st, line), rest) && Unread([line] + rest) == Unread(rest)
  {
    hide Step;
    assert ([line] + rest)[1..] == rest;
  }

  lemma {:induction false} ReadEntries(st: State, entries: seq<Entry>, rest: seq<seq<byte>>) returns (after: State)
    requires forall e :: e in entries ==> Readable(e)
    ensures Run(st, AllEntryLines(entries) + rest) == Run(after, rest)
    ensures Unread(AllEntryLines(entries) + rest) == Unread(rest)
    ensures Flush(after).written == Flush(st).written + AllMeant(entries)
    decreases |entries|
  {
    hide Run, Unread, EntryLines, Readable, Meant, Flush;
    if entries == [] {
      after := st;
      assert [] + rest == rest && Flush(st).written + [] == Flush(st).written;
    } else {
      var more := AllEntryLines(entries[1..]) + rest;
      after := ReadEntry(st, entries[0], more);
      assert AllEntryLines(entries) + rest == EntryLines(entries[0]) + more;
      var before := Flush(after).written;
      after := ReadEntries(after, entries[1..], rest);
      Assoc(Flush(st).written, Meant(entries[0]), AllMeant(entries[1..]));
    }
  }

  /** A record in any layout, behind anything else: from its dn line to the next empty line, every attribute is
   * written in order, and what is behind it is left. */
  lemma AnyLayout(before: seq<seq<byte>>, name: seq<byte>, entries: seq<Entry>, rest: seq<seq<byte>>)
    requires NoDn(before) && forall e :: e in entries ==> Readable(e)
    ensures Read(before + ([[0x64, 0x6e, 0x3a, 0x20] + name] + (AllEntryLines(entries) + ([[]] + rest))))
         == Reading(true, AllMeant(entries), rest)
  {
    hide Run, Unread, Search, AllEntryLines, AllMeant, Readable, Flush;
    var body := AllEntryLines(entries) + ([[]] + rest);
    var dn: seq<byte> := [0x64, 0x6e, 0x3a, 0x20] + name;
    SearchSkips(before, [dn] + body);
    FoundAt(dn, body);
    var after := ReadEntries(START, entries, [[]] + rest);
    EmptyLineEnds(after, rest);
    NothingWritten(AllMeant(entries));
  }

  lemma FoundAt(dn: seq<byte>, body: seq<seq<byte>>)
    requires IsDn(dn)
    ensures Search([dn] + body) == (true, body)
  {
    assert ([dn] + body)[1..] == body;
  }
}
