/** Reading printed contacts back. */
module LdifRoundTrip {
  import opened Bytes
  import opened Base64
  import opened Ldif
  import opened TextLines

  /** What is left of a value that was printed and read. */
  function Received(value: seq<byte>): seq<byte> {
    if NeedsEncoding(value) then Fold72(value) else value
  }

  predicate GoodAttr(attr: seq<byte>) {
    attr != [] && attr[0] != SPACE && Without(attr, COLON) && Without(attr, NL)
  }

  predicate GoodField(f: Field) {
    GoodAttr(f.attr) && !NeedsEncoding(f.objectClass)
  }

  predicate GoodFields(fields: seq<Field>) {
    forall k :: 0 <= k < |fields| ==> GoodField(fields[k])
  }

  function FieldWrites(f: Field): seq<Write> {
    if f.value == [] then [] else
    [Write(f.attr, Received(f.value))] + if f.objectClass == [] then [] else [Write(OBJECT_CLASS, f.objectClass)]
  }

  function AllWrites(fields: seq<Field>): seq<Write> {
    if fields == [] then [] else FieldWrites(fields[0]) + AllWrites(fields[1..])
  }

  // ------------------------------------------------------ the lines of a field

  /** The lines in which the rest of a folded text goes on. */
  function Continuation(s: seq<byte>): seq<seq<byte>>
    decreases |s|
  {
    if s == [] then []
    else if |s| <= LINELEN then [[SPACE] + s]
    else [[SPACE] + s[..LINELEN]] + Continuation(s[LINELEN..])
  }

  function FoldedLines(before: seq<byte>, s: seq<byte>): seq<seq<byte>> {
    if |s| <= LINELEN then [before + s] else [before + s[..LINELEN]] + Continuation(s[LINELEN..])
  }

  lemma {:induction false} LinesOfFolded(before: seq<byte>, s: seq<byte>, rest: seq<byte>)
    requires Without(before, NL) && Without(s, NL)
    ensures Lines(before + Fold72(s) + [NL] + rest) == FoldedLines(before, s) + Lines(rest)
    decreases |s|
  {
    hide Lines;
    if |s| <= LINELEN {
      FirstLine(before + s, rest);
    } else {
      var line, more := s[..LINELEN], s[LINELEN..];
      FirstLine(before + line, [SPACE] + Fold72(more) + [NL] + rest);
      LinesOfFolded([SPACE], more, rest);
      assert before + Fold72(s) + [NL] + rest == (before + line) + [NL] + ([SPACE] + Fold72(more) + [NL] + rest);
      FoldedContinues(more);
      assert FoldedLines(before, s) + Lines(rest) == [before + line] + (Continuation(more) + Lines(rest));
    }
  }

  lemma FoldedContinues(s: seq<byte>)
    requires s != []
    ensures FoldedLines([SPACE], s) == Continuation(s)
  {
  }

  // ---------------------------------------------------------- reading a field

  lemma SkipOne(line: seq<byte>, i: nat)
    requires i < |line| && (line[i] == SPACE || line[i] == COLON)
    requires i + 1 < |line| ==> line[i + 1] != SPACE && line[i + 1] != COLON
    ensures Skip(line, i) == i + 1
  {
  }

  lemma PlainStep(st: State, attr: seq<byte>, value: seq<byte>)
    requires GoodAttr(attr) && value != [] && !NeedsEncoding(value)
    ensures var line := attr + [COLON, SPACE] + value;
            && line != [] && Without(line, NL)
            && Step(st, line) == State(Flush(st).written + [Write(attr, value)], false, attr, Flush(st).coded)
  {
    hide Flush;
    var line := attr + [COLON, SPACE] + value;
    FindIs(attr, COLON, [SPACE] + value);
    assert line == attr + [COLON] + ([SPACE] + value);
    SkipOne(line, |attr| + 1);
    assert line[..|attr|] == attr && line[|attr| + 2..] == value;
    PlainHasNoNewline(value);
  }

  lemma PlainHasNoNewline(value: seq<byte>)
    requires !NeedsEncoding(value)
    ensures Without(value, NL)
  {
    forall i | 0 <= i < |value| ensures value[i] != NL {
      assert !Unsafe(value[i]);
    }
  }

  lemma CodedStep(st: State, attr: seq<byte>, data: seq<byte>)
    requires GoodAttr(attr) && data != [] && data[0] != SPACE && data[0] != COLON
    ensures var line := attr + [COLON, COLON, SPACE] + data;
            line != [] && Step(st, line) == State(Flush(st).written, true, attr, data)
  {
    hide Flush;
    var line := attr + [COLON, COLON, SPACE] + data;
    FindIs(attr, COLON, [COLON, SPACE] + data);
    assert line == attr + [COLON] + ([COLON, SPACE] + data);
    SkipOne(line, |attr| + 2);
    assert Skip(line, |attr| + 1) == |attr| + 3;
    assert line[..|attr|] == attr && line[|attr| + 3..] == data;
  }

  function Joined(s: seq<byte>): seq<byte> {
    if s == [] then [] else FOLD + Fold72(s)
  }

  lemma CollectStep(st: State, x: seq<byte>, lines: seq<seq<byte>>)
    requires st.inField
    ensures var all := [[SPACE] + x] + lines;
            Run(st, all) == Run(st.(coded := st.coded + (FOLD + x)), lines) && Unread(all) == Unread(lines)
  {
    hide Flush, Find, Skip;
    assert st.coded + [NL] + ([SPACE] + x) == st.coded + (FOLD + x);
    assert ([[SPACE] + x] + lines)[1..] == lines;
  }

  /** The continuation lines are all collected. */
  lemma {:induction false} CollectContinuation(st: State, s: seq<byte>, lines: seq<seq<byte>>)
    requires st.inField
    ensures var all := st.(coded := st.coded + Joined(s));
            Run(st, Continuation(s) + lines) == Run(all, lines) && Unread(Continuation(s) + lines) == Unread(lines)
    decreases |s|
  {
    hide Run, Unread, Fold72, Joined, Continuation;
    if s == [] {
      NoContinuation(st, lines);
    } else {
      var n := if |s| <= LINELEN then |s| else LINELEN;
      var more := Continuation(s[n..]) + lines;
      ContinuationCons(s, n);
      assert Continuation(s) + lines == [[SPACE] + s[..n]] + more;
      CollectStep(st, s[..n], more);
      var next := st.(coded := st.coded + (FOLD + s[..n]));
      CollectContinuation(next, s[n..], lines);
      JoinedCons(s, n);
      assert next.coded + Joined(s[n..]) == st.coded + (FOLD + s[..n] + Joined(s[n..]));
    }
  }

  lemma NoContinuation(st: State, lines: seq<seq<byte>>)
    ensures Continuation([]) + lines == lines && st.(coded := st.coded + Joined([])) == st
  {
    assert st.coded + [] == st.coded;
  }

  lemma JoinedCons(s: seq<byte>, n: nat)
    requires s != [] && n == if |s| <= LINELEN then |s| else LINELEN
    ensures Joined(s) == FOLD + s[..n] + Joined(s[n..])
  {
    hide Fold72, Continuation;
    ContinuationCons(s, n);
  }

  lemma ContinuationCons(s: seq<byte>, n: nat)
    requires s != [] && n == if |s| <= LINELEN then |s| else LINELEN
    ensures Continuation(s) == [[SPACE] + s[..n]] + Continuation(s[n..])
    ensures Fold72(s) == s[..n] + Joined(s[n..])
  {
    hide Continuation, Fold72, Joined;
    if |s| <= LINELEN {
      assert s[..n] == s && s[n..] == [];
      NoContinuation(START, []);
      ContinuationLast(s);
    } else {
      ContinuationMore(s);
    }
  }

  lemma ContinuationLast(s: seq<byte>)
    requires s != [] && |s| <= LINELEN
    ensures Continuation(s) == [[SPACE] + s] + Continuation([])
    ensures Fold72(s) == s + Joined([])
  {
  }

  lemma ContinuationMore(s: seq<byte>)
    requires |s| > LINELEN
    ensures Continuation(s) == [[SPACE] + s[..LINELEN]] + Continuation(s[LINELEN..])
    ensures Fold72(s) == s[..LINELEN] + Joined(s[LINELEN..])
  {
    hide Fold72;
    FoldMore(s);
  }

  lemma FoldMore(s: seq<byte>)
    requires |s| > LINELEN
    ensures Fold72(s) == s[..LINELEN] + (FOLD + Fold72(s[LINELEN..]))
  {
  }

  /** A folded base64 field is collected whole, and decoded when the next field begins. */
  lemma CodedField(st: State, attr: seq<byte>, s: seq<byte>, lines: seq<seq<byte>>)
    requires GoodAttr(attr) && s != [] && s[0] != SPACE && s[0] != COLON
    ensures var field, after := FoldedLines(attr + [COLON, COLON, SPACE], s) + lines,
                                State(Flush(st).written, true, attr, Fold72(s));
            Run(st, field) == Run(after, lines) && Unread(field) == Unread(lines)
  {
    hide Flush, Step;
    var n := if |s| <= LINELEN then |s| else LINELEN;
    var before := attr + [COLON, COLON, SPACE];
    var field := FoldedLines(before, s) + lines;
    ContinuationCons(s, n);
    CodedStep(st, attr, s[..n]);
    var next := State(Flush(st).written, true, attr, s[..n]);
    assert field[0] == before + s[..n] && field[1..] == Continuation(s[n..]) + lines;
    CollectContinuation(next, s[n..], lines);
  }

  // ----------------------------------------------------------- one attribute

  function ValueLines(attr: seq<byte>, value: seq<byte>): (lines: seq<seq<byte>>)
    ensures lines != []
  {
    if NeedsEncoding(value) then FoldedLines(attr + [COLON, COLON, SPACE], Groups(value))
    else [attr + [COLON, SPACE] + value]
  }

  lemma LinesOfValue(attr: seq<byte>, value: seq<byte>, rest: seq<byte>)
    requires GoodAttr(attr)
    ensures Lines(attr + LdifData(value) + [NL] + rest) == ValueLines(attr, value) + Lines(rest)
  {
    hide NeedsEncoding, Groups, Lines, Fold72, FoldedLines;
    if NeedsEncoding(value) {
      var before := attr + [COLON, COLON, SPACE];
      GroupsSignificant(value);
      LinesOfFolded(before, Groups(value), rest);
      assert attr + LdifData(value) + [NL] + rest == before + Fold72(Groups(value)) + [NL] + rest;
    } else {
      PlainHasNoNewline(value);
      FirstLine(attr + [COLON, SPACE] + value, rest);
      assert attr + LdifData(value) == attr + [COLON, SPACE] + value;
    }
  }

  /** The reader's state behind the lines of an attribute. */
  function AfterValue(st: State, attr: seq<byte>, value: seq<byte>): State {
    if NeedsEncoding(value) then State(Flush(st).written, true, attr, Encoded(value))
    else State(Flush(st).written + [Write(attr, value)], false, attr, Flush(st).coded)
  }

  lemma ReadValue(st: State, attr: seq<byte>, value: seq<byte>, lines: seq<seq<byte>>)
    requires GoodAttr(attr) && value != []
    ensures var all, after := ValueLines(attr, value) + lines, AfterValue(st, attr, value);
            Run(st, all) == Run(after, lines) && Unread(all) == Unread(lines)
    ensures Flush(AfterValue(st, attr, value)).written == Flush(st).written + [Write(attr, Received(value))]
  {
    hide NeedsEncoding, Fold72, Step, FoldedLines, Groups, Decoded;
    if NeedsEncoding(value) {
      CodedValue(value);
      CodedField(st, attr, Groups(value), lines);
    } else {
      PlainStep(st, attr, value);
      assert (ValueLines(attr, value) + lines)[1..] == lines;
    }
  }

  lemma CodedValue(value: seq<byte>)
    requires value != []
    ensures Groups(value) != [] && Groups(value)[0] != SPACE && Groups(value)[0] != COLON
    ensures Decoded(Encoded(value)) == Fold72(value) && Fold72(value) != []
  {
    hide Letter, Decoded, Fold72;
    RoundTrip(value);
    FoldLength(value);
  }

  /** Only the attribute called dn, unless its value is encoded, looks like the begin of a record. */
  lemma ValueIsDn(attr: seq<byte>, value: seq<byte>)
    requires GoodAttr(attr) && (attr != DN || NeedsEncoding(value))
    ensures NoDn(ValueLines(attr, value))
  {
    hide NeedsEncoding, Groups;
    var line := ValueLines(attr, value)[0];
    if IsDn(line) {
      AttrIsDn(attr, line);
    }
    if NeedsEncoding(value) && |Groups(value)| > LINELEN {
      ContinuationNoDn(Groups(value)[LINELEN..]);
    }
  }

  lemma AttrIsDn(attr: seq<byte>, line: seq<byte>)
    requires GoodAttr(attr) && attr + [COLON] <= line && IsDn(line)
    ensures attr == DN
  {
    assert forall k :: 0 <= k < |attr| ==> line[k] == attr[k];
    assert line[|attr|] == COLON;
  }

  predicate NoDn(lines: seq<seq<byte>>) {
    forall k :: 0 <= k < |lines| ==> !IsDn(lines[k])
  }

  lemma {:induction false} ContinuationNoDn(s: seq<byte>)
    ensures NoDn(Continuation(s))
    decreases |s|
  {
    if |s| > LINELEN {
      ContinuationNoDn(s[LINELEN..]);
    }
  }

  // -------------------------------------------------------------- all fields

  function FieldLines(f: Field): seq<seq<byte>> {
    if f.value == [] then [] else
    ValueLines(f.attr, f.value) + if f.objectClass == [] then [] else ValueLines(OBJECT_CLASS, f.objectClass)
  }

  function AllLines(fields: seq<Field>): seq<seq<byte>> {
    if fields == [] then [] else FieldLines(fields[0]) + AllLines(fields[1..])
  }

  lemma ClassAttr()
    ensures GoodAttr(OBJECT_CLASS) && OBJECT_CLASS != DN && GoodAttr(DN)
    ensures !NeedsEncoding(PERSON) && !NeedsEncoding([])
  {
  }

  lemma LinesOfClass(objectClass: seq<byte>, rest: seq<byte>)
    requires !NeedsEncoding(objectClass)
    ensures Lines(ClassLine(objectClass) + rest) == ValueLines(OBJECT_CLASS, objectClass) + Lines(rest)
  {
    hide NeedsEncoding, ValueLines, Lines;
    ClassAttr();
    LinesOfValue(OBJECT_CLASS, objectClass, rest);
    assert ClassLine(objectClass) == OBJECT_CLASS + LdifData(objectClass) + [NL];
  }

  lemma LinesOfField(f: Field, rest: seq<byte>)
    requires GoodField(f)
    ensures Lines(PrintedField(f) + rest) == FieldLines(f) + Lines(rest)
  {
    hide NeedsEncoding, ValueLines, LdifData, ClassLine, Lines, GoodAttr;
    if f.value == [] {
      assert [] + rest == rest;
    } else if f.objectClass == [] {
      LinesOfValue(f.attr, f.value, rest);
      assert PrintedField(f) + rest == f.attr + LdifData(f.value) + [NL] + rest;
    } else {
      var more := ClassLine(f.objectClass) + rest;
      LinesOfValue(f.attr, f.value, more);
      LinesOfClass(f.objectClass, rest);
      assert PrintedField(f) + rest == f.attr + LdifData(f.value) + [NL] + more;
    }
  }

  lemma {:induction false} LinesOfFields(fields: seq<Field>, rest: seq<byte>)
    requires GoodFields(fields)
    ensures Lines(PrintedFields(fields) + rest) == AllLines(fields) + Lines(rest)
  {
    hide PrintedField, FieldLines, Lines, GoodField;
    if fields == [] {
      assert [] + rest == rest;
    } else {
      LinesOfFields(fields[1..], rest);
      LinesOfField(fields[0], PrintedFields(fields[1..]) + rest);
      assert PrintedFields(fields) + rest == PrintedField(fields[0]) + (PrintedFields(fields[1..]) + rest);
    }
  }

  lemma ReadField(st: State, f: Field, lines: seq<seq<byte>>) returns (after: State)
    requires GoodField(f)
    ensures Run(st, FieldLines(f) + lines) == Run(after, lines) && Unread(FieldLines(f) + lines) == Unread(lines)
    ensures Flush(after).written == Flush(st).written + FieldWrites(f)
  {
    hide NeedsEncoding, ValueLines, Run, Unread, AfterValue, Flush, GoodAttr;
    after := st;
    if f.value == [] {
      assert [] + lines == lines;
    } else {
      after := AfterValue(st, f.attr, f.value);
      if f.objectClass == [] {
        ReadValue(st, f.attr, f.value, lines);
        assert FieldLines(f) == ValueLines(f.attr, f.value);
      } else {
        ReadValue(st, f.attr, f.value, ValueLines(OBJECT_CLASS, f.objectClass) + lines);
        ClassAttr();
        ReadValue(after, OBJECT_CLASS, f.objectClass, lines);
        after := AfterValue(after, OBJECT_CLASS, f.objectClass);
        assert FieldLines(f) + lines
            == ValueLines(f.attr, f.value) + (ValueLines(OBJECT_CLASS, f.objectClass) + lines);
      }
    }
  }

  lemma {:induction false} ReadFields(st: State, fields: seq<Field>, lines: seq<seq<byte>>) returns (after: State)
    requires GoodFields(fields)
    ensures Run(st, AllLines(fields) + lines) == Run(after, lines) && Unread(AllLines(fields) + lines) == Unread(lines)
    ensures Flush(after).written == Flush(st).written + AllWrites(fields)
    decreases |fields|
  {
    hide FieldLines, FieldWrites, Run, Unread, Flush, GoodField;
    if fields == [] {
      after := st;
      assert [] + lines == lines;
    } else {
      var more := AllLines(fields[1..]) + lines;
      after := ReadField(st, fields[0], more);
      assert AllLines(fields) + lines == FieldLines(fields[0]) + more;
      after := ReadFields(after, fields[1..], lines);
    }
  }

  // ---------------------------------------------------------------- a contact

  predicate GoodContact(c: Contact) {
    GoodFields(c.fields) && NoDn(Lines(c.comment + [NL]))
  }

  /** It is printed, under a name that is printed plainly. */
  predicate Findable(c: Contact) {
    c.named && c.dn != [] && !NeedsEncoding(c.dn)
  }

  /** What reading a contact writes. */
  function Writes(c: Contact): seq<Write> {
    AllWrites(c.fields) + [Write(OBJECT_CLASS, PERSON)]
  }

  lemma {:induction false} SearchSkips(before: seq<seq<byte>>, lines: seq<seq<byte>>)
    requires NoDn(before)
    ensures Search(before + lines) == Search(lines)
  {
    if before == [] {
      assert before + lines == lines;
    } else {
      assert (before + lines)[1..] == before[1..] + lines;
      SearchSkips(before[1..], lines);
    }
  }

  lemma NameIsGood(dn: seq<byte>)
    ensures GoodField(Field(DN, dn, []))
  {
    ClassAttr();
  }

  lemma PrintedFieldsCons(f: Field, fields: seq<Field>)
    ensures PrintedFields([f] + fields) == PrintedField(f) + PrintedFields(fields)
  {
    hide PrintedField;
    assert ([f] + fields)[1..] == fields;
  }

  /** The lines of a printed contact: its comment, its name, its fields and an empty line. */
  lemma LinesOfContact(c: Contact, rest: seq<byte>)
    requires GoodContact(c) && c.named
    ensures Lines(Printed(c) + rest)
         == Lines(c.comment + [NL]) + (FieldLines(Field(DN, c.dn, []))
            + (AllLines(c.fields) + (ValueLines(OBJECT_CLASS, PERSON) + ([[]] + Lines(rest)))))
  {
    hide PrintedFields, FieldLines, ValueLines, Lines, GoodField, ClassLine, NeedsEncoding;
    var name := Field(DN, c.dn, []);
    var end := ClassLine(PERSON) + ([NL] + rest);
    ClassAttr();
    FirstLine([], rest);
    assert [] + [NL] + rest == [NL] + rest;
    LinesOfClass(PERSON, [NL] + rest);
    LinesOfFields(c.fields, end);
    NameIsGood(c.dn);
    LinesOfField(name, PrintedFields(c.fields) + end);
    LinesAppend(c.comment, PrintedField(name) + (PrintedFields(c.fields) + end));
    PrintedFieldsCons(name, c.fields);
    assert Printed(c) + rest == c.comment + [NL] + (PrintedField(name) + (PrintedFields(c.fields) + end));
  }

  /** A contact is read back whole, whatever follows it. */
  lemma ReadContact(c: Contact, rest: seq<byte>)
    requires GoodContact(c) && Findable(c)
    ensures Read(Lines(Printed(c) + rest)) == Reading(true, Writes(c), Lines(rest))
  {
    hide FieldLines, ValueLines, AllLines, AllWrites, Lines, GoodFields, NeedsEncoding, Search, Flush, Run, Unread,
         Printed;
    var person := ValueLines(OBJECT_CLASS, PERSON);
    var tail := [[]] + Lines(rest);
    var fields := AllLines(c.fields) + (person + tail);
    LinesOfContact(c, rest);
    SearchSkips(Lines(c.comment + [NL]), FieldLines(Field(DN, c.dn, [])) + fields);
    SearchName(c.dn, fields);
    var after := ReadFields(START, c.fields, person + tail);
    ClassAttr();
    ReadValue(after, OBJECT_CLASS, PERSON, tail);
    var last := AfterValue(after, OBJECT_CLASS, PERSON);
    EmptyLineEnds(last, Lines(rest));
    NothingWritten(AllWrites(c.fields));
  }

  lemma SearchName(dn: seq<byte>, lines: seq<seq<byte>>)
    requires dn != [] && !NeedsEncoding(dn)
    ensures Search(FieldLines(Field(DN, dn, [])) + lines) == (true, lines)
  {
    hide NeedsEncoding;
    var line := DN + [COLON, SPACE] + dn;
    assert FieldLines(Field(DN, dn, [])) == [line];
    assert ([line] + lines)[1..] == lines;
  }

  lemma EmptyLineEnds(st: State, lines: seq<seq<byte>>)
    ensures Run(st, [[]] + lines) == st && Unread([[]] + lines) == lines
  {
    assert ([[]] + lines)[1..] == lines;
  }

  lemma NothingWritten(writes: seq<Write>)
    ensures Flush(START).written + writes == writes
    ensures Received(PERSON) == PERSON
  {
    ClassAttr();
  }

  // ----------------------------------------------------- what cannot be found

  lemma NoDnAppend(a: seq<seq<byte>>, b: seq<seq<byte>>)
    requires NoDn(a) && NoDn(b)
    ensures NoDn(a + b)
  {
  }

  lemma {:induction false} FieldsNoDn(fields: seq<Field>)
    requires GoodFields(fields) && forall k :: 0 <= k < |fields| ==> fields[k].attr != DN
    ensures NoDn(AllLines(fields))
  {
    hide NeedsEncoding, ValueLines, IsDn, NoDn;
    NoLinesNoDn();
    if fields != [] {
      var f := fields[0];
      assert GoodField(f);
      ValueIsDn(f.attr, f.value);
      ClassAttr();
      ValueIsDn(OBJECT_CLASS, f.objectClass);
      NoDnAppend(ValueLines(f.attr, f.value), ValueLines(OBJECT_CLASS, f.objectClass));
      assert ValueLines(f.attr, f.value) + [] == ValueLines(f.attr, f.value);
      FieldsNoDn(fields[1..]);
      NoDnAppend(FieldLines(f), AllLines(fields[1..]));
    }
  }

  lemma NoLinesNoDn()
    ensures NoDn([])
  {
  }

  /** A contact is found again exactly if it has a first or a last name and the name it is printed under is not
   * empty and needs no encoding. */
  lemma ContactFound(c: Contact)
    requires GoodContact(c) && forall k :: 0 <= k < |c.fields| ==> c.fields[k].attr != DN
    ensures Read(Lines(Printed(c))).found <==> Findable(c)
  {
    hide NeedsEncoding, ValueLines, IsDn, NoDn, Lines, Printed, AllLines, Search, GoodFields;
    assert Printed(c) + [] == Printed(c);
    if Findable(c) {
      ReadContact(c, []);
    } else if !c.named {
      NothingPrinted(c);
      NoLines();
      NothingRead();
    } else {
      var comment, name := Lines(c.comment + [NL]), FieldLines(Field(DN, c.dn, []));
      var person := ValueLines(OBJECT_CLASS, PERSON);
      LinesOfContact(c, []);
      NoLines();
      NoLinesNoDn();
      ClassAttr();
      if c.dn != [] {
        ValueIsDn(DN, c.dn);
        assert name == ValueLines(DN, c.dn);
      }
      FieldsNoDn(c.fields);
      ValueIsDn(OBJECT_CLASS, PERSON);
      EmptyLineNoDn();
      NoDnAppend(person, [[]] + []);
      NoDnAppend(AllLines(c.fields), person + ([[]] + []));
      NoDnAppend(name, AllLines(c.fields) + (person + ([[]] + [])));
      var all := name + (AllLines(c.fields) + (person + ([[]] + [])));
      NoDnAppend(comment, all);
      SearchSkips(comment + all, []);
      assert comment + all + [] == comment + all;
      NothingFound();
    }
  }

  lemma EmptyLineNoDn()
    ensures NoDn([[]] + [])
  {
  }

  lemma NothingFound()
    ensures !Search([]).0
  {
  }

  // ------------------------------------------------------------ many contacts

  function PrintedAll(cs: seq<Contact>): seq<byte> {
    if cs == [] then [] else Printed(cs[0]) + PrintedAll(cs[1..])
  }

  lemma {:induction false} ReadShrinks(lines: seq<seq<byte>>)
    ensures Search(lines).0 ==> |Unread(Search(lines).1)| < |lines|
  {
    if lines != [] && !IsDn(lines[0]) {
      ReadShrinks(lines[1..]);
    } else if lines != [] {
      UnreadShrinks(lines[1..]);
    }
  }

  lemma {:induction false} UnreadShrinks(lines: seq<seq<byte>>)
    ensures |Unread(lines)| <= |lines|
  {
    if lines != [] {
      UnreadShrinks(lines[1..]);
    }
  }

  /** Contacts are read from a stream until none is found. */
  function ReadAll(lines: seq<seq<byte>>): seq<seq<Write>>
    decreases |lines|
  {
    ReadShrinks(lines);
    var r := Read(lines);
    if !r.found then [] else [r.written] + ReadAll(r.rest)
  }

  function AllWritten(cs: seq<Contact>): seq<seq<Write>> {
    if cs == [] then [] else (if cs[0].named then [Writes(cs[0])] else []) + AllWritten(cs[1..])
  }

  lemma NothingPrinted(c: Contact)
    requires !c.named
    ensures Printed(c) == []
  {
  }

  /** A file of contacts is read back contact by contact; those without a name are not in it. */
  lemma {:induction false} ReadPrinted(cs: seq<Contact>)
    requires forall k :: 0 <= k < |cs| && cs[k].named ==> GoodContact(cs[k]) && Findable(cs[k])
    ensures ReadAll(Lines(PrintedAll(cs))) == AllWritten(cs)
  {
    hide GoodContact, Findable, NeedsEncoding, Lines, Printed, Writes, Read;
    if cs == [] {
      NoLines();
      NothingRead();
    } else {
      ReadPrinted(cs[1..]);
      if cs[0].named {
        ReadContact(cs[0], PrintedAll(cs[1..]));
      } else {
        NothingPrinted(cs[0]);
        assert [] + PrintedAll(cs[1..]) == PrintedAll(cs[1..]);
        assert [] + AllWritten(cs[1..]) == AllWritten(cs[1..]);
      }
    }
  }

  lemma NothingRead()
    ensures !Read([]).found
  {
  }

  /** A value survives unless it is both encoded and longer than a line. */
  lemma ValueSurvives(value: seq<byte>)
    ensures Received(value) == value <==> !NeedsEncoding(value) || |value| <= LINELEN
  {
    hide NeedsEncoding, Fold72;
    FoldLength(value);
  }
}
