/** Which records survive being built into a given buffer: BuildFields empties it first and sets the size of the
 * data only at the end, so a block that has to be replaced on the way keeps none of the fields written so far. */
module ContentStoreLoss {
  import opened Bytes
  import opened BufferModel
  import opened BufferRefinement
  import opened FieldCodec
  import opened ContentStore
  import opened ContentStoreProofs

  /** What BuildFields leaves in a buffer, any buffer, is the record's layout exactly when there is room. */
  lemma BuiltExactlyWhenRoomForRecord(s: Buf, offset: nat, v: Item)
    requires s.Valid() && Buildable(v)
    ensures var total := offset + Size(Fields(v)); var r := PutFields(Zap(s), offset, Fields(v)).(size := total);
            && r.Valid()
            && (r.Content()[offset..] == Layout(Fields(v))
                <==> HasRoom(s, offset + HEADER + |v.name| + 1, total))
  {
    hide PutFields, Layout, Size, Buf.Content, HasRoom;
    BuiltExactlyWhenRoom(Zap(s), offset, Fields(v));
    ZapRoom(s, offset + HEADER + |v.name| + 1, offset + Size(Fields(v)));
  }

  lemma ZapRoom(s: Buf, next: nat, total: nat)
    ensures HasRoom(Zap(s), next, total) == HasRoom(s, next, total)
  {
  }

  const FRESH := Buf(Zeros(DEFAULT_SIZE + DEFAULT_PREPEND), DEFAULT_PREPEND, 0, false, [])

  /** For a default constructed Data the bound is 0x3f00 bytes, or 0x300 more than a name field beyond that. */
  lemma FreshBufferBound(v: Item)
    requires Buildable(v)
    ensures var total := Size(Fields(v)); var r := PutFields(FRESH, 0, Fields(v)).(size := total);
            var first := HEADER + |v.name| + 1;
            && r.Valid()
            && (r.Content() == Layout(Fields(v))
                <==> total <= if first <= 0x3f00 then 0x3f00 else first + 0x300)
  {
    hide PutFields, Layout, Size;
    BuiltExactlyWhenRoom(FRESH, 0, Fields(v));
    var r := PutFields(FRESH, 0, Fields(v)).(size := Size(Fields(v)));
    assert r.Content()[0..] == r.Content();
  }

  // ------------------------------------------------ what a damaged buffer holds

  lemma {:induction false} PutFieldsAppend(s: Buf, offset: nat, a: seq<Field>, b: seq<Field>)
    requires s.Valid()
    ensures PutFields(s, offset, a + b) == PutFields(PutFields(s, offset, a), offset + Size(a), b)
    decreases |a|
  {
    hide PutField, PutFields, Layout;
    if a == [] {
      assert a + b == b;
      Nothing(s, offset);
    } else {
      var next := offset + HEADER + |a[0].data|;
      assert (a + b)[0] == a[0] && (a + b)[1..] == a[1..] + b;
      FirstThenRest(s, offset, a);
      FirstThenRest(s, offset, a + b);
      PutFieldsAppend(PutField(s, offset, a[0]), next, a[1..], b);
      assert offset + Size(a) == next + Size(a[1..]);
    }
  }

  /** A block that is too small stays too small while more than its slack is still to come. */
  lemma FieldLeavesUnsettled(s: Buf, offset: nat, f: Field, total: nat)
    requires s.Valid() && s.size == 0 && !s.external && !Settled(s, total)
    requires offset + HEADER + |f.data| + SLACK <= total
    ensures var m := PutField(s, offset, f); m.Valid() && m.size == 0 && !m.external && !Settled(m, total)
  {
    hide Splice, FieldBytes;
    var next := offset + HEADER + |f.data|;
    MakeSpaceFits(s, next, 0);
    PokeWrites(GetBuffer(s, next), offset, FieldBytes(f));
    PutFieldFits(s, offset, f);
  }

  lemma {:induction false} FieldsLeaveUnsettled(s: Buf, offset: nat, fields: seq<Field>, total: nat)
    requires s.Valid() && s.size == 0 && !s.external && !Settled(s, total)
    requires offset + Size(fields) + SLACK <= total
    ensures var m := PutFields(s, offset, fields); m.size == 0 && !m.external && !Settled(m, total)
    decreases |fields|
  {
    hide PutField, Settled;
    if fields != [] {
      var next := offset + HEADER + |fields[0].data|;
      FieldLeavesUnsettled(s, offset, fields[0], total);
      FieldsLeaveUnsettled(PutField(s, offset, fields[0]), next, fields[1..], total);
    }
  }

  predicate ZeroBetween(c: seq<byte>, from: nat, to: nat) {
    to <= |c| && forall i :: from <= i < to ==> c[i] == 0
  }

  /** If the block is too small at some field, everything in front of it is lost. */
  lemma FrontIsLost(m: Buf, offset: nat, fields: seq<Field>)
    requires m.Valid() && m.size == 0 && !m.external && offset <= m.BufSize()
    requires fields != [] && !Settled(m, offset + Size(fields))
    ensures var r := PutFields(m, offset, fields).(size := offset + Size(fields));
            r.Valid() && ZeroBetween(r.Content(), 0, offset)
  {
    hide PutField, PutFields, MakeSpace, MustMove, Settled;
    var p := PutFields(m, offset, fields);
    var r := p.(size := offset + Size(fields));
    forall q | 0 <= q < offset ensures r.Content()[q] == 0 {
      GrowthLoses(m, offset, fields, q);
    }
  }

  // --------------------------------------------- how much a record can be made of

  /** A lower bound for the bytes that a record is parsed from. */
  function Weight(v: Item): nat {
    (if v.name == [] then 0 else HEADER + |v.name|)
    + (if v.folder then HEADER + |FOLDER| else 0)
    + (if v.size == 0 then 0 else HEADER + 1)
    + (if v.content == [] then 0 else HEADER + |v.content|)
    + (if v.descriptor == [] then 0 else HEADER + |v.descriptor|)
    + Size(v.unknowns)
  }

  predicate SizedFirst(v: Item) {
    v.content != [] ==> v.size != 0
  }

  lemma ApplyWeight(v: Item, kind: byte, data: seq<byte>, memory: seq<byte>)
    requires data != [] && SizedFirst(v)
    ensures var w := Apply(v, kind, data, memory); SizedFirst(w) && Weight(w) <= Weight(v) + HEADER + |data|
  {
    hide Size, SizeAt, Layout;
    SizeAppend(v.unknowns, [Field(kind, data)]);
    OneSize(Field(kind, data));
  }

  lemma OneSize(f: Field)
    ensures Size([f]) == HEADER + |f.data|
  {
  }

  lemma {:induction false} SizeAppend(a: seq<Field>, b: seq<Field>)
    ensures Size(a + b) == Size(a) + Size(b)
  {
    if a == [] {
      assert a + b == b;
    } else {
      assert (a + b)[0] == a[0] && (a + b)[1..] == a[1..] + b;
      SizeAppend(a[1..], b);
    }
  }

  /** Whatever the bytes are, no more comes out of them than there is. */
  lemma {:induction false} ParsedWeight(v: Item, b: seq<byte>)
    requires SizedFirst(v)
    ensures SizedFirst(Parsed(v, b)) && Weight(Parsed(v, b)) <= Weight(v) + |b|
    decreases |b|
  {
    hide Apply, Weight, FromLE16, SizedFirst;
    if |b| > HEADER {
      var next := HEADER + FromLE16(b[..2]);
      if next == HEADER {
        ParsedWeight(v, b[next..]);
      } else if next <= |b| {
        var data: seq<byte> := b[HEADER..next];
        ApplyWeight(v, b[2], data, b[HEADER..]);
        ParsedWeight(Apply(v, b[2], data, b[HEADER..]), b[next..]);
      }
    }
  }

  /** Zeros are empty fields: all but two of them contribute nothing. */
  lemma {:induction false} ZerosWeigh(v: Item, b: seq<byte>, zeros: nat)
    requires SizedFirst(v) && ZeroBetween(b, 0, zeros)
    ensures SizedFirst(Parsed(v, b)) && Weight(Parsed(v, b)) <= Weight(v) + |b| - zeros + 2
    decreases |b|
  {
    hide Apply, Weight, SizedFirst;
    ParsedWeight(v, b);
    if zeros >= HEADER && |b| > HEADER {
      assert FromLE16(b[..2]) == 0;
      ZerosWeigh(v, b[HEADER..], zeros - HEADER);
    }
  }

  // ---------------------------------------------------------- which records survive

  /** The chunks of a content: those before the last two, which end more than a block from the end, and the rest. */
  lemma {:induction false} SplitChunks(content: seq<byte>) returns (early: seq<Field>, late: seq<Field>)
    requires content != []
    ensures Chunks(content) == early + late && late != []
    ensures Size(late) <= |content| + 2 * HEADER && (|content| > MAX_BLOCK ==> Size(late) > MAX_BLOCK)
    ensures early != [] ==> Size(late) > MAX_BLOCK
    decreases |content|
  {
    hide Size, Layout;
    if |content| <= MAX_BLOCK {
      early, late := [], Chunks(content);
      OneSize(late[0]);
      assert late == [late[0]];
    } else if |content| <= 2 * MAX_BLOCK {
      var first, last := Field(FILE_CONTENT, content[..MAX_BLOCK]), Field(FILE_CONTENT, content[MAX_BLOCK..]);
      early, late := [], Chunks(content);
      assert Chunks(content[MAX_BLOCK..]) == [last];
      assert late == [first] + [last];
      SizeAppend([first], [last]);
      OneSize(first);
      OneSize(last);
    } else {
      early, late := SplitChunks(content[MAX_BLOCK..]);
      var first := Field(FILE_CONTENT, content[..MAX_BLOCK]);
      assert Chunks(content) == [first] + (early + late);
      early := [first] + early;
    }
  }

  /** The fields behind the front in two parts: if a block does not hold all of them, nothing survives of what is
   * in front of the second part, which by itself is too small to make up the record. */
  lemma Parts(v: Item) returns (early: seq<Field>, late: seq<Field>)
    requires Buildable(v)
    ensures Fields(v) == Front(v) + (early + late)
    ensures early != [] ==> Size(late) > SLACK
    ensures forall w :: Same(v, w) && SizedFirst(w) ==> Weight(w) > Size(late) + 2
  {
    hide Front, Chunks, Size;
    if v.folder {
      early, late := [], v.unknowns;
      assert Front(v) + [] + v.unknowns == Front(v) + ([] + v.unknowns);
    } else {
      var chunks;
      early, chunks := SplitChunks(v.content);
      late := chunks + v.unknowns;
      SizeAppend(chunks, v.unknowns);
      assert Front(v) + (early + chunks) + v.unknowns == Front(v) + (early + (chunks + v.unknowns));
    }
  }

  /** A block that holds the front of the record and not all of it. */
  lemma FrontUnsettled(s: Buf, offset: nat, front: seq<Field>, total: nat)
    requires s.Valid() && s.size == 0 && front != [] && offset + Size(front) <= total
    requires HasRoom(s, offset + HEADER + |front[0].data|, offset + Size(front))
    requires !HasRoom(s, offset + HEADER + |front[0].data|, total)
    ensures var m := PutFields(s, offset, front);
            m.size == 0 && !m.external && !Settled(m, total) && offset + Size(front) < total
  {
    hide PutField, PutFields, HasRoom, Layout;
    FirstThenRest(s, offset, front);
    RoomExactly(s, offset, front[0], offset + Size(front));
    RoomExactly(s, offset, front[0], total);
    PutFieldFits(s, offset, front[0]);
    RoomKeepsAll(PutField(s, offset, front[0]), offset + HEADER + |front[0].data|, front[1..]);
  }

  lemma PartsLost(s: Buf, offset: nat, front: seq<Field>, early: seq<Field>, late: seq<Field>)
    requires s.Valid() && s.size == 0 && front != [] && (early != [] ==> Size(late) > SLACK)
    requires HasRoom(s, offset + HEADER + |front[0].data|, offset + Size(front))
    requires !HasRoom(s, offset + HEADER + |front[0].data|, offset + Size(front) + Size(early) + Size(late))
    ensures var zeros := Size(front) + Size(early); var total := offset + zeros + Size(late);
            var r := PutFields(s, offset, front + (early + late)).(size := total);
            r.Valid() && ZeroBetween(r.Content()[offset..], 0, zeros)
  {
    hide PutField, PutFields, HasRoom, Settled, Size, Layout, Buf.Content;
    var at, total := offset + Size(front), offset + Size(front) + Size(early) + Size(late);
    PutFieldsAppend(s, offset, front, early + late);
    FrontUnsettled(s, offset, front, total);
    var m := PutFields(s, offset, front);
    PutFieldsAppend(m, at, early, late);
    Nothing(m, at);
    if early != [] {
      FieldsLeaveUnsettled(m, at, early, total);
    }
    var n := PutFields(m, at, early);
    FrontIsLost(n, at + Size(early), late);
    TailOfLoss(PutFields(n, at + Size(early), late).(size := total).Content(), offset, Size(front) + Size(early));
  }

  lemma DamagedContent(s: Buf, offset: nat, v: Item)
    requires s.Valid() && s.size == 0 && Buildable(v)
    requires HasRoom(s, offset + HEADER + |v.name| + 1, offset + Size(Front(v)))
    requires !HasRoom(s, offset + HEADER + |v.name| + 1, offset + Size(Fields(v)))
    ensures var r := PutFields(s, offset, Fields(v)).(size := offset + Size(Fields(v)));
            r.Valid() && !Same(v, Parsed(BLANK, r.Content()[offset..]))
  {
    hide PutField, PutFields, HasRoom, Parsed, Same, Weight, Fields, Front, Size, Layout, ZeroBetween, Buf.Content;
    var early, late := Parts(v);
    SizeAppend(Front(v), early + late);
    SizeAppend(early, late);
    FrontHead(v);
    PartsLost(s, offset, Front(v), early, late);
    var r := PutFields(s, offset, Fields(v)).(size := offset + Size(Fields(v)));
    ContentSize(r);
    ZerosWeigh(BLANK, r.Content()[offset..], Size(Front(v)) + Size(early));
    BlankWeighs();
  }

  lemma BlankWeighs()
    ensures Weight(BLANK) == 0 && SizedFirst(BLANK)
  {
  }

  lemma Nothing(s: Buf, offset: nat)
    requires s.Valid()
    ensures PutFields(s, offset, []) == s && Size([]) == 0
  {
  }

  lemma FrontHead(v: Item)
    ensures Front(v) != [] && Front(v)[0].data == v.name + [0]
  {
  }

  lemma TailOfLoss(c: seq<byte>, offset: nat, zeros: nat)
    requires ZeroBetween(c, 0, offset + zeros)
    ensures ZeroBetween(c[offset..], 0, zeros)
  {
  }

  /** A record comes back from a buffer, any buffer, exactly when it is one that fields can carry and there was
   * room for all of it. The block left by the name has to hold what precedes the contents, at least. */
  lemma SurvivesExactly(s: Buf, offset: nat, v: Item)
    requires s.Valid() && Buildable(v) && SizesFit(Fields(v)) && |v.content| < MAX32 * MAX32
    requires HasRoom(s, offset + HEADER + |v.name| + 1, offset + Size(Front(v)))
    ensures var total := offset + Size(Fields(v)); var r := PutFields(Zap(s), offset, Fields(v)).(size := total);
            && r.Valid()
            && (Same(v, Parsed(BLANK, r.Content()[offset..]))
                <==> Restorable(v) && HasRoom(s, offset + HEADER + |v.name| + 1, total))
  {
    hide PutFields, Settled, Parsed, Same, Fields, Front, Size, Layout, Buf.Content, Restorable, SizesFit;
    var first, total := offset + HEADER + |v.name| + 1, offset + Size(Fields(v));
    BuiltExactlyWhenRoomForRecord(s, offset, v);
    if HasRoom(s, first, total) {
      RoundTrip(v);
    } else {
      DamagedContent(Zap(s), offset, v);
    }
  }

  lemma FileFrontSize(v: Item)
    requires !v.folder
    ensures Size(Front(v)) == HEADER + |v.name| + 1 + HEADER + |v.descriptor| + HEADER + 8
  {
    hide Size, Layout;
    var a, b, c := Field(FILENAME, v.name + [0]), Field(FILE_DESCRIPTOR, v.descriptor),
                   Field(FILE_CONTENT, LE64(|v.content|));
    assert Front(v) == [a] + ([b] + [c]);
    SizeAppend([a], [b] + [c]);
    SizeAppend([b], [c]);
    OneSize(a);
    OneSize(b);
    OneSize(c);
  }

  /** In a default constructed Data a file of 0x4000 bytes does not survive. */
  lemma LargeFileIsDamaged(name: byte, content: seq<byte>)
    requires name != 0 && |content| == 0x4000
    ensures var v := Item([name], false, content, [], [], 0);
            var r := PutFields(FRESH, 0, Fields(v)).(size := Size(Fields(v)));
            Buildable(v) && Restorable(v) && r.Valid() && !Same(v, Parsed(BLANK, r.Content()))
  {
    hide PutFields, Parsed, Same, Layout;
    var v := Item([name], false, content, [], [], 0);
    assert Fields(v) == Front(v) + [Field(FILE_CONTENT, content)];
    SizeAppend(Front(v), [Field(FILE_CONTENT, content)]);
    OneSize(Field(FILE_CONTENT, content));
    FileFrontSize(v);
    SurvivesExactly(FRESH, 0, v);
    assert Zap(FRESH) == FRESH;
    var r := PutFields(FRESH, 0, Fields(v)).(size := Size(Fields(v)));
    assert r.Content()[0..] == r.Content();
  }
}
