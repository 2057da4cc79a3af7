/** Contacts as LDIF (RFC 2849): the printer and the reader. */
module Ldif {
  import opened Bytes
  import opened Base64
  import opened TextLines

  const COLON: byte := 0x3a
  const DN: seq<byte> := [0x64, 0x6e]
  const OBJECT_CLASS: seq<byte> := [0x6f, 0x62, 0x6a, 0x65, 0x63, 0x74, 0x43, 0x6c, 0x61, 0x73, 0x73]
  const PERSON: seq<byte> := [0x69, 0x6e, 0x65, 0x74, 0x4f, 0x72, 0x67, 0x50, 0x65, 0x72, 0x73, 0x6f, 0x6e]

  // ----------------------------------------------------------------- printing

  predicate Unsafe(c: byte) {
    c == 0 || c == NL || c == 0x0d || c > 0x7f
  }

  /** Everything that is not a SAFE-STRING of RFC 2849. */
  predicate NeedsEncoding(s: seq<byte>) {
    (s != [] && s[0] in {SPACE, COLON, 0x3c}) || exists i :: 0 <= i < |s| && Unsafe(s[i])
  }

  method CheckEncoding(s: seq<byte>) returns (needed: bool)
    ensures needed == NeedsEncoding(s)
  {
    for i := 0 to |s|
      invariant forall k :: 0 <= k < i ==> !Unsafe(s[k])
      invariant i > 0 ==> s[0] !in {SPACE, COLON, 0x3c}
    {
      var c := s[i];
      if c == 0 || c == NL || c == 0x0d {
        assert Unsafe(s[i]);
        return true;
      }
      if (c == SPACE || c == COLON || c == 0x3c) && i == 0 {
        return true;
      }
      if c > 0x7f {
        assert Unsafe(s[i]);
        return true;
      }
    }
    return false;
  }

  function LdifData(s: seq<byte>): seq<byte> {
    if NeedsEncoding(s) then [COLON, COLON, SPACE] + Encoded(s) else [COLON, SPACE] + s
  }

  method MakeLdifData(codec: Codec, s: seq<byte>) returns (data: seq<byte>)
    requires codec.Valid()
    modifies codec.dtable
    ensures codec.Valid() && data == LdifData(s)
  {
    data := [COLON];
    var needed := CheckEncoding(s);
    if needed {
      var b64 := Base64Encode(codec, s);
      data := data + [COLON, SPACE];
      data := data + b64;
    } else {
      data := data + [SPACE];
      data := data + s;
    }
  }

  /** A mapped attribute with the contact's value for it and the object class that goes with it. */
  datatype Field = Field(attr: seq<byte>, value: seq<byte>, objectClass: seq<byte>)

  /** `named` is whether there is a first or a last name. */
  datatype Contact = Contact(named: bool, comment: seq<byte>, dn: seq<byte>, fields: seq<Field>)

  function ClassLine(objectClass: seq<byte>): seq<byte> {
    OBJECT_CLASS + [COLON, SPACE] + objectClass + [NL]
  }

  function PrintedField(f: Field): seq<byte> {
    if f.value == [] then [] else
    f.attr + LdifData(f.value) + [NL] + if f.objectClass == [] then [] else ClassLine(f.objectClass)
  }

  function PrintedFields(fields: seq<Field>): seq<byte> {
    if fields == [] then [] else PrintedField(fields[0]) + PrintedFields(fields[1..])
  }

  /** `dn` comes first, whatever order the other attributes have. Without a name nothing is printed. */
  function Printed(c: Contact): seq<byte> {
    if !c.named then [] else
    c.comment + [NL] + PrintedFields([Field(DN, c.dn, [])] + c.fields) + ClassLine(PERSON) + [NL]
  }

  lemma {:induction false} PrintedFieldsSnoc(fields: seq<Field>, f: Field)
    ensures PrintedFields(fields + [f]) == PrintedFields(fields) + PrintedField(f)
  {
    hide PrintedField;
    if fields == [] {
      assert fields + [f] == [f] && [f][1..] == [];
    } else {
      assert (fields + [f])[1..] == fields[1..] + [f];
      PrintedFieldsSnoc(fields[1..], f);
    }
  }

  method DumpLdif(codec: Codec, c: Contact) returns (os: seq<byte>)
    requires codec.Valid()
    modifies codec.dtable
    ensures codec.Valid() && os == Printed(c)
  {
    hide PrintedField, LdifData;
    if !c.named {
      return [];
    }
    os := c.comment + [NL];
    var attributes := [Field(DN, c.dn, [])] + c.fields;
    assert attributes[..0] == [];
    for k := 0 to |attributes|
      invariant codec.Valid()
      invariant os == c.comment + [NL] + PrintedFields(attributes[..k])
    {
      var line := DumpField(codec, attributes[k]);
      PrintedFieldsSnoc(attributes[..k], attributes[k]);
      assert attributes[..k + 1] == attributes[..k] + [attributes[k]];
      os := os + line;
    }
    assert attributes[..|attributes|] == attributes;
    os := os + ClassLine(PERSON);
    os := os + [NL];
  }

  method DumpField(codec: Codec, f: Field) returns (os: seq<byte>)
    requires codec.Valid()
    modifies codec.dtable
    ensures codec.Valid() && os == PrintedField(f)
  {
    os := [];
    if |f.value| > 0 {
      var data := MakeLdifData(codec, f.value);
      os := f.attr + data + [NL];
      if |f.objectClass| > 0 {
        os := os + ClassLine(f.objectClass);
      }
    }
  }

  // ------------------------------------------------------------------ reading

  datatype Write = Write(attr: seq<byte>, data: seq<byte>)

  function WithWrite(written: seq<Write>, attr: seq<byte>, data: seq<byte>): seq<Write> {
    if attr == [] || data == [] then written else written + [Write(attr, data)]
  }

  /** Between two lines. Inside a base64 field `coded` holds what was collected of it. */
  datatype State = State(written: seq<Write>, inField: bool, attr: seq<byte>, coded: seq<byte>)

  /** The pending field is written. */
  function Flush(st: State): State {
    if st.inField then State(WithWrite(st.written, st.attr, Decoded(st.coded)), false, st.attr, []) else st
  }

  function At(line: seq<byte>, i: nat): byte {
    if i < |line| then line[i] else 0
  }

  function Skip(line: seq<byte>, i: nat): (k: nat)
    requires i <= |line|
    ensures i <= k <= |line|
    decreases |line| - i
  {
    if At(line, i) == SPACE || At(line, i) == COLON then Skip(line, i + 1) else i
  }

  function Step(st: State, line: seq<byte>): State
    requires line != []
  {
    if st.inField && line[0] == SPACE then st.(coded := st.coded + [NL] + line) else
    var next, delim := Flush(st), Find(line, COLON);
    if delim == |line| then next else
    var data := line[Skip(line, delim + 1)..];
    if At(line, delim + 1) == COLON then State(next.written, true, line[..delim], data)
    else State(WithWrite(next.written, line[..delim], data), false, line[..delim], next.coded)
  }

  /** The lines up to an empty one. */
  function Run(st: State, lines: seq<seq<byte>>): State
    decreases |lines|
  {
    if lines == [] || lines[0] == [] then st else Run(Step(st, lines[0]), lines[1..])
  }

  function Unread(lines: seq<seq<byte>>): seq<seq<byte>> {
    if lines == [] then [] else if lines[0] == [] then lines[1..] else Unread(lines[1..])
  }

  predicate IsDn(line: seq<byte>) {
    |line| >= 4 && line[0] == 0x64 && line[1] == 0x6e && line[2] == COLON && line[3] == SPACE
  }

  /** What is behind the first line that begins a record, if there is one. */
  function Search(lines: seq<seq<byte>>): (r: (bool, seq<seq<byte>>)) {
    if lines == [] then (false, []) else if IsDn(lines[0]) then (true, lines[1..]) else Search(lines[1..])
  }

  const START := State([], false, [], [])

  datatype Reading = Reading(found: bool, written: seq<Write>, rest: seq<seq<byte>>)

  function Read(lines: seq<seq<byte>>): Reading {
    var s := Search(lines);
    if !s.0 then Reading(false, [], []) else Reading(true, Flush(Run(START, s.1)).written, Unread(s.1))
  }

  /** Collects what is written to the fields of a contact. */
  class ContactLdif {
    var written: seq<Write>

    constructor ()
      ensures written == []
    {
      written := [];
    }

    method DoWrite(attr: seq<byte>, data: seq<byte>)
      modifies this
      ensures written == WithWrite(old(written), attr, data)
    {
      if |attr| == 0 || |data| == 0 {
        return;
      }
      written := written + [Write(attr, data)];
    }

    method FindDn(input: Stream) returns (found: bool)
      requires input.Valid()
      modifies input
      ensures input.Valid() && (found, input.Rest()) == Search(old(input.Rest()))
    {
      while true
        invariant input.Valid() && Search(input.Rest()) == Search(old(input.Rest()))
        decreases |input.text| - input.pos
      {
        var line, ok := input.GetLine();
        if !ok {
          return false;
        }
        if IsDn(line) {
          return true;
        }
      }
    }

    method SplitLine(line: seq<byte>) returns (attr: seq<byte>, data: seq<byte>, delim: nat)
      ensures delim == Find(line, COLON)
      ensures delim < |line| ==> attr == line[..delim] && data == line[Skip(line, delim + 1)..]
    {
      delim := Find(line, COLON);
      attr, data := [], [];
      if delim < |line| {
        attr := line[..delim];
        var dstart := delim + 1;
        while At(line, dstart) == SPACE || At(line, dstart) == COLON
          invariant delim + 1 <= dstart <= |line|
          invariant Skip(line, dstart) == Skip(line, delim + 1)
          decreases |line| - dstart
        {
          dstart := dstart + 1;
        }
        data := line[dstart..];
      }
    }

    method ReadLdif(input: Stream, codec: Codec) returns (found: bool)
      requires input.Valid() && codec.Valid()
      modifies this, input, codec.dtable
      ensures input.Valid() && codec.Valid()
      ensures Reading(found, written, input.Rest()) == Read(old(input.Rest()))
    {
      hide Lines, Find, Skip, Search, Decoded;
      written := [];
      found := FindDn(input);
      SearchFails(old(input.Rest()));
      if !found {
        return;
      }
      ghost var lines := input.Rest();
      var coded: seq<byte>, attr: seq<byte>, b64field := [], [], false;
      while true
        invariant input.Valid() && codec.Valid()
        invariant Run(State(written, b64field, attr, coded), input.Rest()) == Run(START, lines)
        invariant Unread(input.Rest()) == Unread(lines)
        decreases |input.text| - input.pos
      {
        ghost var st := State(written, b64field, attr, coded);
        var line, ok := input.GetLine();
        if !ok || |line| == 0 {
          break;
        }
        if b64field {
          if line[0] == SPACE {
            coded := coded + [NL];
            coded := coded + line;
            assert coded == st.coded + [NL] + line;
            continue;
          }
          var decode, _ := Base64Decode(codec, coded);
          DoWrite(attr, decode);
          coded, b64field := [], false;
        }
        assert State(written, b64field, attr, coded) == Flush(st);
        var newAttr, data, delim := SplitLine(line);
        if delim == |line| {
          continue;
        }
        attr := newAttr;
        if At(line, delim + 1) == COLON {
          coded, b64field := data, true;
          continue;
        }
        DoWrite(attr, data);
      }
      assert State(written, b64field, attr, coded) == Run(START, lines) && input.Rest() == Unread(lines);
      if b64field {
        var decode, _ := Base64Decode(codec, coded);
        DoWrite(attr, decode);
      }
    }
  }

  lemma {:induction false} SearchFails(lines: seq<seq<byte>>)
    ensures !Search(lines).0 ==> Search(lines).1 == []
  {
    if lines != [] {
      SearchFails(lines[1..]);
    }
  }
}
