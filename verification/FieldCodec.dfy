/** Type-length-value fields of a database record: building them into a `Data` buffer. */
module FieldCodec {
  import opened Bytes
  import opened BufferModel
  import opened BufferRefinement
  import opened DataBuffer

  const HEADER := 3

  datatype Field = Field(kind: byte, data: seq<byte>)

  /** Size, type, data. The size is a uint16_t, the data is copied whole. */
  function FieldBytes(f: Field): (r: seq<byte>)
    ensures |r| == HEADER + |f.data|
  {
    LE16(|f.data|) + [f.kind] + f.data
  }

  function Layout(fields: seq<Field>): seq<byte> {
    if fields == [] then [] else FieldBytes(fields[0]) + Layout(fields[1..])
  }

  lemma {:induction false} LayoutAppend(a: seq<Field>, b: seq<Field>)
    ensures Layout(a + b) == Layout(a) + Layout(b)
  {
    if a == [] {
      assert a + b == b;
    } else {
      LayoutAppend(a[1..], b);
      assert (a + b)[1..] == a[1..] + b;
    }
  }

  function Size(fields: seq<Field>): (n: nat)
    ensures n == |Layout(fields)|
  {
    if fields == [] then 0 else HEADER + |fields[0].data| + Size(fields[1..])
  }

  function PutField(s: Buf, offset: nat, f: Field): Buf
    requires s.Valid()
  {
    GetBufferFits(s, offset + HEADER + |f.data|);
    Poke(GetBuffer(s, offset + HEADER + |f.data|), offset, FieldBytes(f))
  }

  lemma PutFieldFits(s: Buf, offset: nat, f: Field)
    requires s.Valid()
    ensures var r := PutField(s, offset, f);
            && r.Valid() && !r.external && r.size == s.size
            && r.BufSize() >= offset + HEADER + |f.data|
  {
    GetBufferFits(s, offset + HEADER + |f.data|);
    PokeWrites(GetBuffer(s, offset + HEADER + |f.data|), offset, FieldBytes(f));
  }

  /** The fields written one after the other, each asking for just the buffer it needs. */
  function PutFields(s: Buf, offset: nat, fields: seq<Field>): (r: Buf)
    requires s.Valid()
    ensures r.Valid()
    ensures fields != [] ==> !r.external && r.size == s.size && r.BufSize() >= offset + Size(fields)
    decreases |fields|
  {
    if fields == [] then s else
      PutFieldFits(s, offset, fields[0]);
      var m := PutField(s, offset, fields[0]);
      PutFields(m, offset + HEADER + |fields[0].data|, fields[1..])
  }

  lemma {:induction false} PutFieldsSnoc(s: Buf, offset: nat, fields: seq<Field>, last: Field)
    requires s.Valid()
    ensures PutFields(s, offset, fields + [last])
         == PutField(PutFields(s, offset, fields), offset + Size(fields), last)
    ensures Size(fields + [last]) == Size(fields) + HEADER + |last.data|
    decreases |fields|
  {
    hide PutField;
    var all := fields + [last];
    if fields == [] {
      assert all == [last];
      PutFieldFits(s, offset, last);
      assert PutFields(PutField(s, offset, last), offset + HEADER + |last.data|, []) == PutField(s, offset, last);
    } else {
      PutFieldFits(s, offset, fields[0]);
      var m, next := PutField(s, offset, fields[0]), offset + HEADER + |fields[0].data|;
      PutFieldsSnoc(m, next, fields[1..], last);
      assert all[1..] == fields[1..] + [last] && all[0] == fields[0];
      assert PutFields(s, offset, all) == PutFields(m, next, all[1..]);
    }
  }

  /** Appends a field at `offset`; returns the advanced offset. m_dataSize is not touched. */
  method BuildField(data: Data, offset: nat, f: Field) returns (next: nat)
    requires data.Valid()
    modifies data, data.memBlock
    ensures data.Valid() && (data.memBlock == old(data.memBlock) || fresh(data.memBlock))
    ensures data.state == PutField(old(data.state), offset, f)
    ensures next == offset + HEADER + |f.data|
  {
    next := offset + HEADER + |f.data|;
    GetBufferFits(data.state, next);
    data.GetBuffer(next);
    PokeWrites(data.state, offset, FieldBytes(f));
    data.Poke(offset, FieldBytes(f));
  }

  // ------------------------------------------------ when does the result hold

  /** One field into a buffer that has room for it: only its own bytes change. */
  lemma FieldInRoom(s: Buf, offset: nat, f: Field, total: nat)
    requires s.Valid() && s.size == 0 && Settled(s, total) && offset + HEADER + |f.data| <= total
    ensures var m := PutField(s, offset, f);
            && m == s.(block := m.block) && m.Valid() && Settled(m, total)
            && s.start + total <= |s.block|
            && m.block == Splice(s.block, s.start + offset, FieldBytes(f))
  {
    var next := offset + HEADER + |f.data|;
    SettledBelow(s, total, next);
    SettledExactly(s, next);
    SettledExactly(s, total);
    MakeSpaceFits(s, total, 0);
    PokeWrites(s, offset, FieldBytes(f));
  }

  /** With room for everything, the block keeps its place and receives the fields in order. */
  lemma {:induction false} RoomKeepsAll(s: Buf, offset: nat, fields: seq<Field>)
    requires s.Valid() && s.size == 0 && Settled(s, offset + Size(fields))
    ensures s.start + offset + Size(fields) <= |s.block|
    ensures PutFields(s, offset, fields) == s.(block := Splice(s.block, s.start + offset, Layout(fields)))
    decreases |fields|
  {
    hide PutField, MakeSpace, MustMove;
    if fields == [] {
      SettledExactly(s, offset);
      MakeSpaceFits(s, offset, 0);
      assert Splice(s.block, s.start + offset, []) == s.block;
    } else {
      var bytes, rest := FieldBytes(fields[0]), Layout(fields[1..]);
      var next := offset + |bytes|;
      FieldInRoom(s, offset, fields[0], offset + Size(fields));
      var m := PutField(s, offset, fields[0]);
      RoomKeepsAll(m, next, fields[1..]);
      assert Splice(m.block, s.start + next, rest) == Splice(s.block, s.start + offset, bytes + rest);
    }
  }

  /** Byte q is lost, or will be: it is zero, or the block is too small for what follows. */
  predicate Doomed(s: Buf, q: nat, total: nat)
    requires s.Valid()
  {
    && s.size == 0 && !s.external && s.start + q < |s.block|
    && (s.block[s.start + q] == 0 || !Settled(s, total))
  }

  lemma DoomStays(s: Buf, offset: nat, f: Field, q: nat, total: nat)
    requires s.Valid() && Doomed(s, q, total) && q < offset && offset + HEADER + |f.data| <= total
    ensures var m := PutField(s, offset, f); var next := offset + HEADER + |f.data|;
            && m.Valid() && Doomed(m, q, total)
            && (next == total ==> m.block[m.start + q] == 0)
  {
    hide Splice, FieldBytes, MakeSpace;
    var next := offset + HEADER + |f.data|;
    GetBufferFits(s, next);
    var g := GetBuffer(s, next);
    PutFieldFits(s, offset, f);
    PokeWrites(g, offset, FieldBytes(f));
    if Settled(s, next) {
      SettledExactly(s, next);
    } else {
      UnsettledLoses(s, next);
      assert g.block[g.start + q] == 0;
    }
  }

  /** Once the block has to be replaced, every byte in front of the field then written is zero. */
  lemma {:induction false} GrowthLoses(s: Buf, offset: nat, fields: seq<Field>, q: nat)
    requires s.Valid() && Doomed(s, q, offset + Size(fields)) && q < offset
    requires fields == [] ==> s.block[s.start + q] == 0
    ensures var r := PutFields(s, offset, fields);
            r.start + q < |r.block| && r.block[r.start + q] == 0
    decreases |fields|
  {
    hide PutField, MakeSpace, MustMove;
    if fields != [] {
      var next := offset + HEADER + |fields[0].data|;
      DoomStays(s, offset, fields[0], q, offset + Size(fields));
      assert next + Size(fields[1..]) == offset + Size(fields);
      GrowthLoses(PutField(s, offset, fields[0]), next, fields[1..], q);
    }
  }

  /** What the first field leaves behind: its bytes, in a block with room for them. */
  lemma FirstField(s: Buf, offset: nat, f: Field)
    requires s.Valid() && s.size == 0
    ensures var m := PutField(s, offset, f); var next := offset + HEADER + |f.data|;
            && m.Valid() && m.size == 0 && !m.external && m.start + next <= |m.block|
            && Settled(m, next)
            && (forall i :: 0 <= i < HEADER + |f.data| ==> m.block[m.start + offset + i] == FieldBytes(f)[i])
  {
    var next := offset + HEADER + |f.data|;
    hide Splice, FieldBytes, MakeSpace, Settled;
    GetBufferFits(s, next);
    RequestSettles(s, next, next);
    var g := GetBuffer(s, next);
    SettledExactly(g, next);
    PokeWrites(g, offset, FieldBytes(f));
    SettledByShape(g, PutField(s, offset, f), next);
  }

  lemma SettledByShape(s: Buf, r: Buf, want: nat)
    requires s.Valid() && r.Valid() && r == s.(block := r.block) && |r.block| == |s.block|
    ensures Settled(s, want) == Settled(r, want)
  {
  }

  lemma RoomCase(m: Buf, offset: nat, f: Field, rest: seq<Field>)
    requires m.Valid() && m.size == 0
    requires Settled(m, offset + HEADER + |f.data| + Size(rest))
    requires m.start + offset + HEADER + |f.data| <= |m.block|
    requires forall i :: 0 <= i < HEADER + |f.data| ==> m.block[m.start + offset + i] == FieldBytes(f)[i]
    ensures var next := offset + HEADER + |f.data|; var total := next + Size(rest);
            var r := PutFields(m, next, rest).(size := total);
            r.Valid() && !r.external && r.Content()[offset..] == FieldBytes(f) + Layout(rest)
  {
    hide PutField, PutFields, MakeSpace, MustMove, Splice, Layout, Buf.Content;
    var next := offset + HEADER + |f.data|;
    RoomKeepsAll(m, next, rest);
    ReadBack(m, offset, FieldBytes(f), Layout(rest));
  }

  lemma ReadBack(m: Buf, offset: nat, first: seq<byte>, rest: seq<byte>)
    requires m.Valid() && !m.external && m.start + offset + |first| + |rest| <= |m.block|
    requires forall i :: 0 <= i < |first| ==> m.block[m.start + offset + i] == first[i]
    ensures var r := m.(block := Splice(m.block, m.start + offset + |first|, rest),
                        size := offset + |first| + |rest|);
            r.Valid() && r.Content()[offset..] == first + rest
  {
  }

  lemma LossCase(m: Buf, offset: nat, f: Field, rest: seq<Field>)
    requires m.Valid() && m.size == 0 && !m.external
    requires m.start + offset + HEADER + |f.data| <= |m.block|
    requires Settled(m, offset + HEADER + |f.data|)
    requires !Settled(m, offset + HEADER + |f.data| + Size(rest))
    ensures var next := offset + HEADER + |f.data|; var total := next + Size(rest);
            var r := PutFields(m, next, rest).(size := total);
            r.Valid() && !r.external && r.Content()[offset + 2] == 0
  {
    hide PutField, PutFields, MakeSpace, MustMove;
    GrowthLoses(m, offset + HEADER + |f.data|, rest, offset + 2);
  }

  lemma FirstThenRest(s: Buf, offset: nat, fields: seq<Field>)
    requires s.Valid() && fields != []
    ensures var m := PutField(s, offset, fields[0]);
            m.Valid() && PutFields(s, offset, fields) == PutFields(m, offset + HEADER + |fields[0].data|, fields[1..])
    ensures Layout(fields) == FieldBytes(fields[0]) + Layout(fields[1..])
  {
    hide PutField;
    PutFieldFits(s, offset, fields[0]);
  }

  lemma KindOf(f: Field, behind: seq<byte>)
    ensures |FieldBytes(f)| > 2 && (FieldBytes(f) + behind)[2] == f.kind
  {
    hide LE16;
  }

  /** Whether a first field that ends at `next` and then more fields that end at `total` can be written into an
   * emptied buffer without its block being replaced after the first: in a block that has room for the first
   * field they have to fit as well, otherwise the first one gets a block with some slack. */
  predicate HasRoom(s: Buf, next: nat, total: nat) {
    var gap := if s.external || s.start == 0 then DEFAULT_PREPEND else s.start;
    var moved := s.external || s.start + next + gap > |s.block|;
    var shift := if !moved && s.start == 0 then 0 else if gap < SLACK then gap else SLACK;
    total + gap + shift <= if moved then Max(|s.block|, next + SLACK + gap) else |s.block|
  }

  lemma RoomExactly(s: Buf, offset: nat, f: Field, total: nat)
    requires s.Valid() && s.size == 0 && offset + HEADER + |f.data| <= total
    ensures var m := PutField(s, offset, f);
            m.Valid() && (Settled(m, total) <==> HasRoom(s, offset + HEADER + |f.data|, total))
  {
    hide Splice, FieldBytes;
    var next := offset + HEADER + |f.data|;
    MakeSpaceFits(s, next, 0);
    PokeWrites(GetBuffer(s, next), offset, FieldBytes(f));
    PutFieldFits(s, offset, f);
  }

  /** Fields built into an emptied buffer come out as their layout exactly when there is room for them, by the
   * start and the length of the block, the first field and the total. */
  lemma BuiltExactlyWhenRoom(s: Buf, offset: nat, fields: seq<Field>)
    requires s.Valid() && s.size == 0
    requires fields != [] && fields[0].kind != 0
    ensures var total := offset + Size(fields);
            var r := PutFields(s, offset, fields).(size := total);
            && r.Valid() && !r.external
            && (r.Content()[offset..] == Layout(fields)
                <==> HasRoom(s, offset + HEADER + |fields[0].data|, total))
  {
    hide PutField, PutFields, MakeSpace, MustMove, Settled, LE16, Splice, Layout, FieldBytes, HasRoom;
    FirstThenRest(s, offset, fields);
    var f, rest := fields[0], fields[1..];
    var total := offset + Size(fields);
    FirstField(s, offset, f);
    RoomExactly(s, offset, f, total);
    var m := PutField(s, offset, f);
    if Settled(m, total) {
      RoomCase(m, offset, f, rest);
    } else {
      LossCase(m, offset, f, rest);
      var r := PutFields(s, offset, fields).(size := total);
      assert r.Content()[offset..][2] == 0;
      KindOf(f, Layout(rest));
    }
  }
}
