/** Building a Content Store record and parsing it back: what survives, and what does not. */
module ContentStoreProofs {
  import opened Bytes
  import opened BufferModel
  import opened BufferRefinement
  import opened FieldCodec
  import opened ContentStore

  predicate SizesFit(fields: seq<Field>) {
    forall f :: f in fields ==> |f.data| < MAX16
  }

  /** One field, with `memory` from its data on. */
  function Step(v: Item, f: Field, memory: seq<byte>): Item {
    if f.data == [] then v else Apply(v, f.kind, f.data, memory)
  }

  /** The fields applied one by one, with `tail` behind them in memory. */
  function Folded(v: Item, fields: seq<Field>, tail: seq<byte>): Item
    decreases |fields|
  {
    if fields == [] then v else
    var f, rest := fields[0], fields[1..];
    Folded(Step(v, f, f.data + (Layout(rest) + tail)), rest, tail)
  }

  lemma FoldedCons(v: Item, f: Field, rest: seq<Field>, tail: seq<byte>)
    ensures Folded(v, [f] + rest, tail) == Folded(Step(v, f, f.data + (Layout(rest) + tail)), rest, tail)
    ensures Layout([]) == []
  {
    assert ([f] + rest)[1..] == rest;
  }

  lemma FieldHead(f: Field, behind: seq<byte>)
    requires |f.data| < MAX16
    ensures var b := FieldBytes(f) + behind; var next := HEADER + |f.data|;
            && FromLE16(b[..2]) == |f.data| && b[2] == f.kind
            && b[HEADER..next] == f.data && b[HEADER..] == f.data + behind && b[next..] == behind
  {
    var b := FieldBytes(f) + behind;
    RoundTrip16(|f.data|);
    assert b[..2] == LE16(|f.data|);
  }

  /** The parser takes a laid out list of fields apart again. */
  lemma {:induction false} ParsedLayout(v: Item, fields: seq<Field>)
    requires SizesFit(fields)
    ensures Parsed(v, Layout(fields)) == Folded(v, fields, [])
    decreases |fields|
  {
    hide FieldBytes, LE16, FromLE16, Apply;
    if fields != [] {
      var f, rest := fields[0], fields[1..];
      FieldHead(f, Layout(rest));
      assert Layout(rest) + [] == Layout(rest);
      if |Layout(fields)| <= HEADER {
        assert f.data == [] && Size(rest) == 0;
      } else {
        ParsedLayout(Step(v, f, f.data + Layout(rest)), rest);
      }
    }
  }

  lemma {:induction false} FoldedAppend(v: Item, a: seq<Field>, b: seq<Field>, tail: seq<byte>)
    ensures Folded(v, a + b, tail) == Folded(Folded(v, a, Layout(b) + tail), b, tail)
    decreases |a|
  {
    hide Step;
    if a == [] {
      assert a + b == b;
    } else {
      var f, rest := a[0], a[1..];
      assert (a + b)[1..] == rest + b;
      LayoutAppend(rest, b);
      assert Layout(rest + b) + tail == Layout(rest) + (Layout(b) + tail);
      FoldedAppend(Step(v, f, f.data + (Layout(rest + b) + tail)), rest, b, tail);
    }
  }

  lemma ChunksCons(content: seq<byte>, n: nat)
    requires content != [] && n == if |content| <= MAX_BLOCK then |content| else MAX_BLOCK
    ensures Chunks(content) == [Field(FILE_CONTENT, content[..n])] + Chunks(content[n..])
  {
    if |content| <= MAX_BLOCK {
      assert content[..n] == content && content[n..] == [];
    }
  }

  lemma FoldedChunk(v: Item, chunk: seq<byte>, rest: seq<Field>, tail: seq<byte>)
    requires v.size != 0 && chunk != []
    ensures Folded(v, [Field(FILE_CONTENT, chunk)] + rest, tail)
         == Folded(v.(content := v.content + chunk), rest, tail)
  {
    hide Layout, Folded;
    FoldedCons(v, Field(FILE_CONTENT, chunk), rest, tail);
  }

  lemma NothingFolded(v: Item, tail: seq<byte>)
    ensures Chunks([]) == [] && Folded(v, [], tail) == v && v.(content := v.content + []) == v
  {
    assert v.content + [] == v.content;
  }

  lemma {:induction false} FoldedChunks(v: Item, content: seq<byte>, tail: seq<byte>)
    requires v.size != 0
    ensures Folded(v, Chunks(content), tail) == v.(content := v.content + content)
    decreases |content|
  {
    hide Chunks, Folded;
    if content == [] {
      NothingFolded(v, tail);
    } else {
      var n := if |content| <= MAX_BLOCK then |content| else MAX_BLOCK;
      var first, rest := content[..n], content[n..];
      ChunksCons(content, n);
      FoldedChunk(v, first, Chunks(rest), tail);
      FoldedChunks(v.(content := v.content + first), rest, tail);
      assert (v.content + first) + rest == v.content + content;
    }
  }

  predicate Keepable(f: Field) {
    f.data != [] && !Known(f.kind)
  }

  function Keepables(fields: seq<Field>): (r: seq<Field>)
    ensures |r| <= |fields|
    ensures (forall f :: f in fields ==> Keepable(f)) <==> |r| == |fields|
    ensures |r| == |fields| ==> r == fields
  {
    if fields == [] then []
    else (if Keepable(fields[0]) then [fields[0]] else []) + Keepables(fields[1..])
  }

  lemma StepUnknowns(v: Item, f: Field, memory: seq<byte>)
    ensures !Keepable(f) ==> Step(v, f, memory).unknowns == v.unknowns
    ensures Keepable(f) ==> Step(v, f, memory) == v.(unknowns := v.unknowns + [f])
  {
  }

  lemma {:induction false} FoldedUnknowns(v: Item, fields: seq<Field>, tail: seq<byte>)
    ensures Folded(v, fields, tail).unknowns == v.unknowns + Keepables(fields)
    decreases |fields|
  {
    hide Step, Layout, Keepable;
    if fields != [] {
      var f, rest := fields[0], fields[1..];
      var memory := f.data + (Layout(rest) + tail);
      StepUnknowns(v, f, memory);
      FoldedUnknowns(Step(v, f, memory), rest, tail);
    }
  }

  lemma {:induction false} FoldedKeepables(v: Item, fields: seq<Field>, tail: seq<byte>)
    requires forall f :: f in fields ==> Keepable(f)
    ensures Folded(v, fields, tail) == v.(unknowns := v.unknowns + fields)
    decreases |fields|
  {
    hide Step, Layout, Keepable;
    if fields == [] {
      assert v.unknowns + fields == v.unknowns;
    } else {
      var f, rest := fields[0], fields[1..];
      var memory := f.data + (Layout(rest) + tail);
      StepUnknowns(v, f, memory);
      FoldedKeepables(v.(unknowns := v.unknowns + [f]), rest, tail);
      assert v.unknowns + [f] + rest == v.unknowns + fields;
    }
  }

  /** The record that the known fields alone restore. */
  function Core(v: Item): Item {
    Item(Trimmed(v.name), v.folder, if v.folder then [] else v.content,
         if v.folder then [] else v.descriptor, [], if v.folder then 0 else |v.content|)
  }

  lemma TrimmedTerminator(s: seq<byte>)
    ensures Trimmed(s + [0]) == Trimmed(s)
  {
    assert (s + [0])[..|s|] == s;
  }

  lemma SizeFieldRead(n: nat, behind: seq<byte>)
    requires n < MAX32 * MAX32
    ensures SizeAt(LE64(n) + behind) == n
  {
    hide FromLE64, LE64;
    RoundTrip64(n);
    assert (LE64(n) + behind)[..8] == LE64(n);
  }

  lemma FoldedFront(v: Item, tail: seq<byte>)
    requires |v.content| < MAX32 * MAX32
    ensures Folded(BLANK, Front(v), tail) == Core(v).(content := [])
  {
    hide LE64, Layout, Trimmed, SizeAt, Folded;
    TrimmedTerminator(v.name);
    var named := BLANK.(name := Trimmed(v.name));
    if v.folder {
      FoldedCons(BLANK, Field(FILENAME, v.name + [0]), [Field(FOLDER_FLAG, FOLDER + [0])], tail);
      FoldedCons(named, Field(FOLDER_FLAG, FOLDER + [0]), [], tail);
      assert [Field(FOLDER_FLAG, FOLDER + [0])] + [] == [Field(FOLDER_FLAG, FOLDER + [0])];
      TrimmedTerminator(FOLDER);
      assert FOLDER[5] != 0 && Trimmed(FOLDER) == FOLDER;
      FoldedNothing(named.(folder := true), tail);
    } else {
      var described := named.(descriptor := v.descriptor);
      var size := Field(FILE_CONTENT, LE64(|v.content|));
      FoldedCons(BLANK, Field(FILENAME, v.name + [0]), [Field(FILE_DESCRIPTOR, v.descriptor), size], tail);
      assert [Field(FILE_DESCRIPTOR, v.descriptor), size] == [Field(FILE_DESCRIPTOR, v.descriptor)] + [size];
      FoldedCons(named, Field(FILE_DESCRIPTOR, v.descriptor), [size], tail);
      assert Step(named, Field(FILE_DESCRIPTOR, v.descriptor), v.descriptor + (Layout([size]) + tail)) == described;
      FoldedCons(described, size, [], tail);
      assert [size] + [] == [size];
      assert [] + tail == tail;
      SizeFieldRead(|v.content|, tail);
      FoldedNothing(described.(size := |v.content|), tail);
    }
  }

  lemma FoldedNothing(v: Item, tail: seq<byte>)
    ensures Folded(v, [], tail) == v
  {
  }

  /** Known fields and chunks restore the core of the record. */
  lemma FoldedKnown(v: Item, tail: seq<byte>)
    requires Buildable(v) && |v.content| < MAX32 * MAX32
    ensures Folded(BLANK, Front(v) + (if v.folder then [] else Chunks(v.content)), tail) == Core(v)
  {
    hide Front, Folded, Chunks;
    var chunks := if v.folder then [] else Chunks(v.content);
    FoldedAppend(BLANK, Front(v), chunks, tail);
    FoldedFront(v, Layout(chunks) + tail);
    if v.folder {
      FoldedNothing(Core(v), tail);
    } else {
      FoldedChunks(Core(v).(content := []), v.content, tail);
      assert [] + v.content == v.content;
    }
  }

  predicate Same(v: Item, w: Item) {
    && w.name == v.name && w.folder == v.folder && w.content == v.content
    && w.descriptor == v.descriptor && w.unknowns == v.unknowns
  }

  /** What BuildFields can carry: no name ending in a null byte, nothing but a name in a folder,
   * and unknown fields that have data and a code of their own. */
  predicate Restorable(v: Item) {
    && (v.name != [] ==> v.name[|v.name| - 1] != 0)
    && (v.folder ==> v.content == [] && v.descriptor == [])
    && forall f :: f in v.unknowns ==> Keepable(f)
  }

  /** Contents of any length are chunked and rejoined: the record comes back from its
   * layout exactly when it is restorable. */
  lemma RoundTrip(v: Item)
    requires Buildable(v) && SizesFit(Fields(v)) && |v.content| < MAX32 * MAX32
    ensures Same(v, Parsed(BLANK, Layout(Fields(v)))) <==> Restorable(v)
  {
    hide Folded, Layout, Parsed, Front, Chunks, Trimmed, SizesFit;
    var head := Front(v) + (if v.folder then [] else Chunks(v.content));
    ParsedLayout(BLANK, Fields(v));
    FoldedAppend(BLANK, head, v.unknowns, []);
    FoldedKnown(v, Layout(v.unknowns) + []);
    FoldedUnknowns(Core(v), v.unknowns, []);
    if Keepables(v.unknowns) == v.unknowns {
      FoldedKeepables(Core(v), v.unknowns, []);
    }
    assert [] + Keepables(v.unknowns) == Keepables(v.unknowns);
    assert [] + v.unknowns == v.unknowns;
    TrimmedFixed(v.name);
  }

  lemma TrimmedFixed(s: seq<byte>)
    ensures Trimmed(s) == s <==> (s != [] ==> s[|s| - 1] != 0)
  {
  }
}
