/** The Content Store record: files and folders as a list of fields, contents in chunks. */
module ContentStore {
  import opened Bytes
  import opened BufferModel
  import opened BufferRefinement
  import opened DataBuffer
  import opened FieldCodec

  const FILENAME: byte := 0x01
  const FOLDER_FLAG: byte := 0x05
  const FILE_DESCRIPTOR: byte := 0x06
  const FILE_CONTENT: byte := 0x07
  const MAX_BLOCK := 0xfffe
  const FOLDER: seq<byte> := [0x66, 0x6f, 0x6c, 0x64, 0x65, 0x72]

  /** The members of the record that its fields carry; `size` is the private FileSize. */
  datatype Item = Item(name: seq<byte>, folder: bool, content: seq<byte>, descriptor: seq<byte>,
                       unknowns: seq<Field>, size: nat)

  const BLANK := Item([], false, [], [], [], 0)

  predicate Known(kind: byte) {
    kind == FILENAME || kind == FOLDER_FLAG || kind == FILE_DESCRIPTOR || kind == FILE_CONTENT
  }

  // ------------------------------------------------------------------ parsing

  /** A string field without its trailing null bytes. */
  function Trimmed(s: seq<byte>): (r: seq<byte>)
    ensures r <= s
    ensures r != [] ==> r[|r| - 1] != 0
    ensures forall i :: |r| <= i < |s| ==> s[i] == 0
    ensures s != [] && s[|s| - 1] != 0 ==> r == s
  {
    if s == [] || s[|s| - 1] != 0 then s else Trimmed(s[..|s| - 1])
  }

  /** The size field is read as eight bytes whatever the field's own size says. Memory
   * past the end of the data is taken to be zero. */
  function SizeAt(memory: seq<byte>): nat {
    FromLE64(if |memory| >= 8 then memory[..8] else memory + Zeros(8 - |memory|))
  }

  /** What one field does; `memory` is everything from the field's data on. */
  function Apply(v: Item, kind: byte, data: seq<byte>, memory: seq<byte>): Item {
    if kind == FILENAME then v.(name := Trimmed(data))
    else if kind == FOLDER_FLAG then v.(folder := Trimmed(data) == FOLDER)
    else if kind == FILE_CONTENT then
      if v.size != 0 then v.(content := v.content + data) else v.(size := SizeAt(memory))
    else if kind == FILE_DESCRIPTOR then v.(descriptor := data)
    else v.(unknowns := v.unknowns + [Field(kind, data)])
  }

  /** Reading all fields of `b`: a field that overruns the data ends it, an empty one is skipped. */
  function Parsed(v: Item, b: seq<byte>): Item
    decreases |b|
  {
    if |b| <= HEADER then v else
    var next := HEADER + FromLE16(b[..2]);
    if next > |b| then v
    else if next == HEADER then Parsed(v, b[next..])
    else Parsed(Apply(v, b[2], b[HEADER..next], b[HEADER..]), b[next..])
  }

  // ----------------------------------------------------------------- building

  function Chunks(content: seq<byte>): (r: seq<Field>)
    ensures forall f :: f in r ==> f.kind == FILE_CONTENT && 0 < |f.data| <= MAX_BLOCK
    decreases |content|
  {
    if content == [] then []
    else if |content| <= MAX_BLOCK then [Field(FILE_CONTENT, content)]
    else [Field(FILE_CONTENT, content[..MAX_BLOCK])] + Chunks(content[MAX_BLOCK..])
  }

  function Front(v: Item): seq<Field> {
    [Field(FILENAME, v.name + [0])]
    + if v.folder then [Field(FOLDER_FLAG, FOLDER + [0])]
      else [Field(FILE_DESCRIPTOR, v.descriptor), Field(FILE_CONTENT, LE64(|v.content|))]
  }

  function Fields(v: Item): seq<Field> {
    Front(v) + (if v.folder then [] else Chunks(v.content)) + v.unknowns
  }

  predicate Buildable(v: Item) {
    v.name != [] && (v.folder || v.content != [])
  }

  class ContentStoreRecord {
    var item: Item

    constructor ()
      ensures item == BLANK
    {
      item := BLANK;
    }

    /** Returns where the next field begins. */
    method ParseField(b: seq<byte>, begin: nat) returns (next: nat)
      requires begin + HEADER < |b|
      modifies this
      ensures next == begin + HEADER + FromLE16(b[begin..begin + 2])
      ensures item == if next > |b| || next == begin + HEADER then old(item)
                      else Apply(old(item), b[begin + 2], b[begin + HEADER..next], b[begin + HEADER..])
    {
      next := begin + HEADER + FromLE16(b[begin..begin + 2]);
      if next > |b| || next == begin + HEADER {
        return;
      }
      var kind, data := b[begin + 2], b[begin + HEADER..next];
      if kind == FILENAME {
        item := item.(name := Trimmed(data));
      } else if kind == FOLDER_FLAG {
        item := item.(folder := false);
        if Trimmed(data) == FOLDER {
          item := item.(folder := true);
        }
      } else if kind == FILE_CONTENT {
        if item.size != 0 {
          item := item.(content := item.content + data);
        } else {
          item := item.(size := SizeAt(b[begin + HEADER..]));
        }
      } else if kind == FILE_DESCRIPTOR {
        item := item.(descriptor := data);
      } else {
        item := item.(unknowns := item.unknowns + [Field(kind, data)]);
      }
    }

    method ParseFields(b: seq<byte>)
      modifies this
      ensures item == Parsed(old(item), b)
    {
      hide Apply, FromLE16, Parsed;
      var begin := 0;
      assert b[0..] == b;
      while begin + HEADER < |b|
        invariant begin <= |b| ==> Parsed(item, b[begin..]) == Parsed(old(item), b)
        invariant begin > |b| ==> item == Parsed(old(item), b)
        decreases |b| + 0x1_0000 - begin
      {
        ParsedStep(item, b, begin);
        begin := ParseField(b, begin);
      }
      ParsedEnds(item, b, begin);
    }

    /** False where BadData is thrown; the buffer is emptied even then. */
    method BuildFields(data: Data, offset: nat) returns (ok: bool)
      requires data.Valid()
      modifies data, data.memBlock
      ensures ok <==> Buildable(item)
      ensures data.Valid()
      ensures !ok ==> data.state == Zap(old(data.state))
      ensures ok ==> data.state == PutFields(Zap(old(data.state)), offset, Fields(item))
                                   .(size := offset + Size(Fields(item)))
    {
      hide PutFields, PutField, BufferModel.MakeSpace, LE64;
      data.Zap();
      if item.name == [] || (!item.folder && item.content == []) {
        return false;
      }
      ghost var z, o := data.state, offset;
      ghost var front := Front(item);
      assert front[..1] == [] + [front[0]];
      assert front[..2] == front[..1] + [front[1]];
      PutNothing(z, o);
      var at := AddField(data, z, o, [], offset, Field(FILENAME, item.name + [0]));
      if item.folder {
        at := AddField(data, z, o, front[..1], at, Field(FOLDER_FLAG, FOLDER + [0]));
        assert front == front[..2] && front + [] == front;
      } else {
        at := AddField(data, z, o, front[..1], at, Field(FILE_DESCRIPTOR, item.descriptor));
        at := AddField(data, z, o, front[..2], at, Field(FILE_CONTENT, LE64(|item.content|)));
        assert front == front[..2] + [front[2]];
        at := BuildContent(data, z, o, front, at);
      }
      at := BuildUnknowns(data, z, o, front + if item.folder then [] else Chunks(item.content), at);
      ok := data.ReleaseBuffer(at);
    }

    method BuildContent(data: Data, ghost zapped: Buf, ghost offset: nat, ghost front: seq<Field>, start: nat)
      returns (at: nat)
      requires Writing(data, zapped, offset, front, start)
      modifies data, data.memBlock
      ensures Writing(data, zapped, offset, front + Chunks(item.content), at)
      ensures data.memBlock == old(data.memBlock) || fresh(data.memBlock)
    {
      hide Writing, Chunks;
      at := start;
      ghost var done := front;
      var from := 0;
      assert item.content[0..] == item.content;
      while from < |item.content|
        invariant 0 <= from <= |item.content|
        invariant Writing(data, zapped, offset, done, at)
        invariant data.memBlock == old(data.memBlock) || fresh(data.memBlock)
        invariant done + Chunks(item.content[from..]) == front + Chunks(item.content)
      {
        var blockSize := |item.content| - from;
        if blockSize > MAX_BLOCK {
          blockSize := MAX_BLOCK;
        }
        var f := Field(FILE_CONTENT, item.content[from..from + blockSize]);
        ChunkStep(item.content, from, blockSize);
        at := AddField(data, zapped, offset, done, at, f);
        ghost var rest := Chunks(item.content[from + blockSize..]);
        assert done + ([f] + rest) == (done + [f]) + rest;
        done := done + [f];
        from := from + blockSize;
      }
      NoChunks(item.content, from);
      assert done + [] == done;
    }

    method BuildUnknowns(data: Data, ghost zapped: Buf, ghost offset: nat, ghost head: seq<Field>, start: nat)
      returns (at: nat)
      requires Writing(data, zapped, offset, head, start)
      modifies data, data.memBlock
      ensures Writing(data, zapped, offset, head + item.unknowns, at)
      ensures data.memBlock == old(data.memBlock) || fresh(data.memBlock)
    {
      hide Writing;
      at := start;
      assert head + item.unknowns[..0] == head;
      for i := 0 to |item.unknowns|
        invariant Writing(data, zapped, offset, head + item.unknowns[..i], at)
        invariant data.memBlock == old(data.memBlock) || fresh(data.memBlock)
      {
        at := AddField(data, zapped, offset, head + item.unknowns[..i], at, item.unknowns[i]);
        assert head + item.unknowns[..i] + [item.unknowns[i]] == head + item.unknowns[..i + 1];
      }
      assert item.unknowns[..|item.unknowns|] == item.unknowns;
    }
  }

  lemma PutNothing(s: Buf, offset: nat)
    requires s.Valid()
    ensures PutFields(s, offset, []) == s && Size([]) == 0
  {
  }

  /** BuildField as one more step of a build. */
  method AddField(data: Data, ghost zapped: Buf, ghost offset: nat, ghost done: seq<Field>, at: nat, f: Field)
    returns (next: nat)
    requires Writing(data, zapped, offset, done, at)
    modifies data, data.memBlock
    ensures Writing(data, zapped, offset, done + [f], next)
    ensures data.memBlock == old(data.memBlock) || fresh(data.memBlock)
  {
    hide PutFields, PutField;
    PutFieldsSnoc(zapped, offset, done, f);
    next := BuildField(data, at, f);
  }

  /** The state of a build after the fields `done`. */
  ghost predicate Writing(data: Data, zapped: Buf, offset: nat, done: seq<Field>, at: nat)
    reads data, data.memBlock
  {
    && data.Valid() && zapped.Valid()
    && data.state == PutFields(zapped, offset, done)
    && at == offset + Size(done)
  }

  lemma ParsedStep(v: Item, b: seq<byte>, begin: nat)
    requires begin + HEADER < |b|
    ensures var next := begin + HEADER + FromLE16(b[begin..begin + 2]);
            Parsed(v, b[begin..])
            == if next > |b| then v
               else Parsed(if next == begin + HEADER then v
                           else Apply(v, b[begin + 2], b[begin + HEADER..next], b[begin + HEADER..]), b[next..])
  {
    hide Apply, FromLE16;
    var rest := b[begin..];
    var size := FromLE16(b[begin..begin + 2]);
    DropSlice(b, begin, 0, 2);
    DropDrop(b, begin, HEADER);
    if HEADER + size <= |rest| {
      DropSlice(b, begin, HEADER, HEADER + size);
      DropDrop(b, begin, HEADER + size);
    }
  }

  lemma ParsedEnds(v: Item, b: seq<byte>, begin: nat)
    requires begin + HEADER >= |b|
    ensures begin <= |b| ==> Parsed(v, b[begin..]) == v
  {
  }

  lemma NoChunks(content: seq<byte>, from: nat)
    requires from == |content|
    ensures Chunks(content[from..]) == []
  {
  }

  lemma ChunkStep(content: seq<byte>, from: nat, blockSize: nat)
    requires from < |content|
    requires blockSize == if |content| - from > MAX_BLOCK then MAX_BLOCK else |content| - from
    ensures Chunks(content[from..])
         == [Field(FILE_CONTENT, content[from..from + blockSize])] + Chunks(content[from + blockSize..])
  {
    var rest := content[from..];
    assert rest[blockSize..] == content[from + blockSize..];
    assert rest[..blockSize] == content[from..from + blockSize];
    if |rest| <= MAX_BLOCK {
      assert content[from..from + blockSize] == rest;
    }
  }
}
