/** What a Content Store record is in bytes, and what the reader makes of any list of fields, in terms of neither. */
module ContentStoreMeaning {
  import opened Bytes
  import opened FieldCodec
  import opened ContentStore
  import opened ContentStoreProofs

  // ------------------------------------------------------------ what is written

  function Bare(f: Field): seq<byte> {
    LE16(|f.data|) + [f.kind] + f.data
  }

  lemma LayoutPair(a: Field, b: Field)
    ensures Layout([a]) == Bare(a) && Layout([a, b]) == Bare(a) + Bare(b)
  {
    assert [a, b][1..] == [b] && [a][1..] == [] && [b][1..] == [];
    assert Layout([b]) == Bare(b);
  }

  /** A folder is its name, ended by a zero, and the word folder, likewise. */
  lemma FolderBytes(v: Item)
    requires v.folder
    ensures Layout(Fields(v)) == LE16(|v.name| + 1) + [0x01] + v.name + [0]
                                 + [7, 0, 0x05, 0x66, 0x6f, 0x6c, 0x64, 0x65, 0x72, 0] + Layout(v.unknowns)
  {
    hide Layout;
    var name, flag := Field(FILENAME, v.name + [0]), Field(FOLDER_FLAG, FOLDER + [0]);
    assert Front(v) + [] == Front(v) == [name, flag];
    LayoutAppend(Front(v), v.unknowns);
    LayoutPair(name, flag);
    Assoc(LE16(|v.name| + 1) + [0x01], v.name, [0]);
    assert Bare(flag) == [7, 0, 0x05, 0x66, 0x6f, 0x6c, 0x64, 0x65, 0x72, 0];
  }

  /** A file is its name, its descriptor, the size of its content in eight bytes, and the content in blocks. */
  lemma FileBytes(v: Item)
    requires !v.folder
    ensures Layout(Fields(v)) == LE16(|v.name| + 1) + [0x01] + v.name + [0]
                                 + (LE16(|v.descriptor|) + [0x06] + v.descriptor) + ([8, 0, 0x07] + LE64(|v.content|))
                                 + Layout(Chunks(v.content)) + Layout(v.unknowns)
  {
    hide Layout, LE64;
    var name, descriptor := Field(FILENAME, v.name + [0]), Field(FILE_DESCRIPTOR, v.descriptor);
    var size := Field(FILE_CONTENT, LE64(|v.content|));
    assert Front(v) == [name, descriptor] + [size];
    LayoutAppend(Front(v) + Chunks(v.content), v.unknowns);
    LayoutAppend(Front(v), Chunks(v.content));
    LayoutAppend([name, descriptor], [size]);
    LayoutPair(name, descriptor);
    LayoutPair(size, size);
    Assoc(LE16(|v.name| + 1) + [0x01], v.name, [0]);
    assert Bare(size) == [8, 0, 0x07] + LE64(|v.content|);
  }

  /** The k-th block has 0xfffe bytes, except for the last one. */
  lemma {:induction false} ChunksAre(content: seq<byte>, k: nat)
    ensures |Chunks(content)| == (|content| + 0xfffd) / 0xfffe
    ensures k * 0xfffe < |content| ==>
              && k < |Chunks(content)|
              && Chunks(content)[k] == Field(0x07, content[k * 0xfffe..if k * 0xfffe + 0xfffe < |content|
                                                                       then k * 0xfffe + 0xfffe else |content|])
    decreases |content|
  {
    if |content| > 0xfffe {
      var rest := content[0xfffe..];
      assert Chunks(content) == [Field(FILE_CONTENT, content[..0xfffe])] + Chunks(rest);
      ChunksAre(rest, if k > 0 then k - 1 else 0);
      if k > 0 && k * 0xfffe < |content| {
        var from: nat := (k - 1) * 0xfffe;
        var to := if from + 0xfffe < |rest| then from + 0xfffe else |rest|;
        assert rest[from..to] == content[from + 0xfffe..to + 0xfffe];
      }
    } else if content != [] {
      assert Chunks(content) == [Field(FILE_CONTENT, content)] && content[0..|content|] == content;
    }
  }

  // ---------------------------------------------------------------- what is read

  /** The data of the last field of a kind that has any. */
  function Last(fields: seq<Field>, kind: byte): seq<byte> {
    if fields == [] then [] else
    var f := fields[|fields| - 1];
    if f.kind == kind && f.data != [] then f.data else Last(fields[..|fields| - 1], kind)
  }

  function Joined(fields: seq<Field>): seq<byte> {
    if fields == [] then [] else
    var f := fields[|fields| - 1];
    Joined(fields[..|fields| - 1]) + if f.kind == 0x07 then f.data else []
  }

  lemma StepKeeps(v: Item, f: Field, memory: seq<byte>)
    ensures var w := Step(v, f, memory); var given := f.data != [];
            && w.name == (if f.kind == 0x01 && given then Trimmed(f.data) else v.name)
            && w.folder == (if f.kind == 0x05 && given then Trimmed(f.data) == FOLDER else v.folder)
            && w.descriptor == (if f.kind == 0x06 && given then f.data else v.descriptor)
            && (v.size != 0 ==> w.size == v.size && w.content == v.content + if f.kind == 0x07 then f.data else [])
            && (f.kind != 0x07 ==> w.size == v.size && w.content == v.content)
  {
    assert v.content + [] == v.content;
  }

  lemma FoldedSnoc(v: Item, fields: seq<Field>, tail: seq<byte>)
    requires fields != []
    ensures var f, init := fields[|fields| - 1], fields[..|fields| - 1];
            Folded(v, fields, tail) == Step(Folded(v, init, Layout([f]) + tail), f, f.data + ([] + tail))
  {
    hide Step;
    var f, init := fields[|fields| - 1], fields[..|fields| - 1];
    assert fields == init + [f];
    FoldedAppend(v, init, [f], tail);
    assert [f][1..] == [] && Layout([]) == [];
  }

  /** Whatever fields there are, in whatever order: the last of a kind decides. */
  lemma {:induction false} FoldedLast(fields: seq<Field>, tail: seq<byte>)
    ensures var v := Folded(BLANK, fields, tail);
            && v.name == Trimmed(Last(fields, 0x01)) && v.descriptor == Last(fields, 0x06)
            && (v.folder <==> Trimmed(Last(fields, 0x05)) == FOLDER)
            && ((forall f :: f in fields ==> f.kind != 0x07) ==> v.content == [] && v.size == 0)
    decreases |fields|
  {
    hide Step, Folded, Trimmed, Layout;
    if fields == [] {
      FoldedNothing(BLANK, tail);
      NothingTrimmed();
    } else {
      var f, init := fields[|fields| - 1], fields[..|fields| - 1];
      FoldedSnoc(BLANK, fields, tail);
      FoldedLast(init, Layout([f]) + tail);
      StepKeeps(Folded(BLANK, init, Layout([f]) + tail), f, f.data + ([] + tail));
    }
  }

  lemma NothingTrimmed()
    ensures Trimmed([]) == [] && FOLDER != []
  {
  }

  lemma {:induction false} FoldedContent(v: Item, fields: seq<Field>, tail: seq<byte>)
    requires v.size != 0
    ensures Folded(v, fields, tail).size == v.size && Folded(v, fields, tail).content == v.content + Joined(fields)
    decreases |fields|
  {
    hide Step, Folded, Layout;
    if fields == [] {
      FoldedNothing(v, tail);
      assert v.content + [] == v.content;
    } else {
      var f, init := fields[|fields| - 1], fields[..|fields| - 1];
      FoldedSnoc(v, fields, tail);
      FoldedContent(v, init, Layout([f]) + tail);
      StepKeeps(Folded(v, init, Layout([f]) + tail), f, f.data + ([] + tail));
      Assoc(v.content, Joined(init), if f.kind == 0x07 then f.data else []);
    }
  }

  lemma SizeIsRead(v: Item, size: Field, memory: seq<byte>)
    requires size.kind == 0x07 && v.size == 0 && v.content == []
    requires 8 <= |size.data| && size.data <= memory && exists i :: 0 <= i < 8 && size.data[i] != 0
    ensures Step(v, size, memory).size != 0 && Step(v, size, memory).content == []
  {
    var b := memory[..8];
    assert b == size.data[..8];
    var i :| 0 <= i < 8 && size.data[i] != 0;
    NotZero(b, i);
  }

  lemma NotZero(b: seq<byte>, i: nat)
    requires |b| == 8 && i < 8 && b[i] != 0
    ensures FromLE64(b) != 0
  {
    var lo, hi := b[..4], b[4..];
    if i < 4 {
      assert lo[i] == b[i];
      NotZero4(lo, i);
    } else {
      assert hi[i - 4] == b[i];
      NotZero4(hi, i - 4);
    }
  }

  lemma NotZero4(b: seq<byte>, i: nat)
    requires |b| == 4 && i < 4 && b[i] != 0
    ensures FromLE32(b) != 0
  {
    assert b[..2][0] == b[0] && b[..2][1] == b[1] && b[2..][0] == b[2] && b[2..][1] == b[3];
  }

  /** The content is what follows the size: all later fields of its kind together, whatever stands between. */
  lemma ContentIsJoined(before: seq<Field>, size: Field, fields: seq<Field>)
    requires SizesFit(before + ([size] + fields)) && size.kind == 0x07
    requires forall f :: f in before ==> f.kind != 0x07
    requires 8 <= |size.data| && exists i :: 0 <= i < 8 && size.data[i] != 0
    ensures Parsed(BLANK, Layout(before + ([size] + fields))).content == Joined(fields)
  {
    hide Parsed, Layout, Folded, Step;
    var all := before + ([size] + fields);
    ParsedLayout(BLANK, all);
    FoldedAppend(BLANK, before, [size] + fields, []);
    var v := Folded(BLANK, before, Layout([size] + fields) + []);
    FoldedLast(before, Layout([size] + fields) + []);
    FoldedCons(v, size, fields, []);
    var memory := size.data + (Layout(fields) + []);
    SizeIsRead(v, size, memory);
    FoldedContent(Step(v, size, memory), fields, []);
    assert [] + Joined(fields) == Joined(fields);
  }

  /** The reader, on any laid out fields: the last name, descriptor and folder flag count, and the unknown fields
   * are kept in their order. */
  lemma ParsedMeaning(fields: seq<Field>)
    requires SizesFit(fields)
    ensures var v := Parsed(BLANK, Layout(fields));
            && v.name == Trimmed(Last(fields, 0x01)) && v.descriptor == Last(fields, 0x06)
            && (v.folder <==> Trimmed(Last(fields, 0x05)) == [0x66, 0x6f, 0x6c, 0x64, 0x65, 0x72])
            && v.unknowns == Keepables(fields)
  {
    hide Parsed, Layout, Folded, Trimmed, Keepables;
    ParsedLayout(BLANK, fields);
    FoldedLast(fields, []);
    FoldedUnknowns(BLANK, fields, []);
    assert [] + Keepables(fields) == Keepables(fields);
  }

  // -------------------------------------------------------------- a cut record

  lemma {:induction false} ParsedBefore(v: Item, fields: seq<Field>, tail: seq<byte>)
    requires SizesFit(fields)
    ensures Parsed(v, Layout(fields) + tail) == Parsed(Folded(v, fields, tail), tail)
    decreases |fields|
  {
    hide FieldBytes, LE16, FromLE16, Apply;
    if fields == [] {
      assert [] + tail == tail;
    } else {
      var f, rest := fields[0], fields[1..];
      var behind := Layout(rest) + tail;
      FieldHead(f, behind);
      Assoc(FieldBytes(f), Layout(rest), tail);
      if |FieldBytes(f) + behind| <= HEADER {
        assert f.data == [] && Size(rest) == 0 && behind == [] && tail == [];
        ParsedBefore(v, rest, tail);
        assert Layout(rest) + tail == [];
      } else {
        ParsedBefore(Step(v, f, f.data + behind), rest, tail);
      }
    }
  }

  /** From a record that is cut off anywhere, the fields in front of the cut are read, and nothing is made of the
   * piece behind them. */
  lemma CutIsParsed(fields: seq<Field>, f: Field, k: nat)
    requires SizesFit(fields) && |f.data| < MAX16 && k < |FieldBytes(f)|
    ensures Parsed(BLANK, Layout(fields) + FieldBytes(f)[..k]) == Folded(BLANK, fields, FieldBytes(f)[..k])
  {
    hide LE16, FromLE16, Layout, Folded;
    var cut := FieldBytes(f)[..k];
    ParsedBefore(BLANK, fields, cut);
    if k > HEADER {
      RoundTrip16(|f.data|);
      assert cut[..2] == LE16(|f.data|);
    }
  }
}
