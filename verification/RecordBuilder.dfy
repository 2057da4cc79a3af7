/** Writing a record out: `DBDataBuilder` moves the raw record to the place the upload packet has for
 * it, and `DBPacket` puts the header in front. */
module RecordBuilder {
  import opened Bytes
  import opened BufferModel
  import opened BufferRefinement
  import opened DataBuffer

  const ADD_HEADER := 15
  const SET_HEADER := 12
  const SB_COMMAND_DB_DATA: byte := 0x40
  const SB_DBOP_ADD_RECORD: byte := 0x41
  const SB_DBOP_SET_RECORD_BY_INDEX: byte := 0x55

  datatype Meta = Meta(dbName: string, recType: byte, uniqueId: nat)

  class DBDataObject {
    var meta: Meta
    var offset: nat
    const data: Data

    /** Works on a buffer that belongs to somebody else. */
    constructor (meta: Meta, offset: nat, data: Data)
      ensures this.meta == meta && this.offset == offset && this.data == data
    {
      this.meta, this.offset, this.data := meta, offset, data;
    }

    ghost predicate Valid()
      reads this, data, data.memBlock
    {
      data.Valid()
    }

    ghost predicate Sound()
      requires Valid()
      reads this, data, data.memBlock
    {
      offset <= |data.Content()|
    }

    /** The record itself. */
    ghost function Payload(): seq<byte>
      requires Valid() && Sound()
      reads this, data, data.memBlock
    {
      data.Content()[offset..]
    }
  }

  // --------------------------------------------------------- moving the record

  /** Asking for the buffer once more before it is released does not move what was written. */
  lemma PayloadStays(s: Buf, offset: nat, payload: seq<byte>)
    requires s.Valid() && !s.external && offset + |payload| <= s.BufSize() && Settled(s, s.size)
    ensures var w := Poke(s, offset, payload);
            && w.Valid() && GetBuffer(w, 0) == w && CanRelease(w, offset + |payload|)
            && w.(size := offset + |payload|).Valid()
            && w.(size := offset + |payload|).Content()[offset..] == payload
  {
    hide MakeSpace, Splice;
    PokeWrites(s, offset, payload);
    var w := Poke(s, offset, payload);
    assert Settled(w, w.size);
    SettledExactly(w, w.size);
    SpliceReads(s.block, s.start + offset, payload);
    SliceDrop(w.block, s.start, s.start + offset + |payload|, offset);
  }

  lemma BothSettled(s: Buf, total: nat)
    requires s.Valid()
    ensures var s1 := GetBuffer(s, 0);
            s1.Valid() && var s2 := GetBuffer(s1, total); s2.Valid() && Settled(s2, s2.size)
  {
    hide MakeSpace, Settled;
    GetBufferFits(s, 0);
    var s1 := GetBuffer(s, 0);
    var want := if total == 0 then s1.size else total;
    MakeSpaceFits(s1, want, 0);
    var s2 := GetBuffer(s1, total);
    RequestSettles(s, s.size, s.size);
    if want <= s1.size {
      RequestSettles(s, s.size, want);
      SettledExactly(s1, s1.size);
    } else {
      RequestSettles(s1, want, s1.size);
      SettledExactly(s2, s2.size);
    }
  }

  method PlacePayload(data: Data, offset: nat, payload: seq<byte>)
    requires data.Valid()
    modifies data, data.memBlock
    ensures data.Valid() && (data.memBlock == old(data.memBlock) || fresh(data.memBlock))
    ensures |data.Content()| == offset + |payload| && data.Content()[offset..] == payload
  {
    hide BufferModel.GetBuffer, BufferModel.MakeSpace, BufferModel.Poke, Settled;
    var total := offset + |payload|;
    BothSettled(data.state, total);
    data.GetBuffer();
    GetBufferFits(data.state, total);
    data.GetBuffer(total);
    PayloadStays(data.state, offset, payload);
    data.Poke(offset, payload);
    data.GetBuffer();
    var ok := data.ReleaseBuffer(total);
  }

  /** False where the C++ code throws: a record that begins past its data cannot be moved. */
  method BuildRecord(orig: DBDataObject, data: DBDataObject, offset: nat) returns (ok: bool)
    requires orig.Valid() && data.Valid()
    requires orig != data && orig.data != data.data && orig.data.memBlock != data.data.memBlock
    modifies data, data.data, data.data.memBlock
    ensures data.Valid() && (data.data.memBlock == old(data.data.memBlock) || fresh(data.data.memBlock))
    ensures orig.Valid() && orig.data.Content() == old(orig.data.Content())
    ensures ok <==> offset == orig.offset || orig.Sound()
    ensures data.meta == orig.meta && data.offset == if ok then offset else orig.offset
    ensures ok && orig.Sound() ==>
              data.Sound() && data.Payload() == orig.Payload() && |data.data.Content()| == offset + |orig.Payload()|
  {
    hide BufferModel.Assign, Buf.Content, Buf.Valid;
    data.meta, data.offset := orig.meta, orig.offset;
    if offset == orig.offset {
      AssignRefines(data.data.state, orig.data.state);
      data.data.Assign(orig.data);
      return true;
    }
    var source := orig.data.GetData();
    if orig.offset > |source| {
      return false;
    }
    PlacePayload(data.data, offset, source[orig.offset..]);
    data.offset := offset;
    ok := true;
  }

  // ------------------------------------------------------------------ packets

  /** Behind the socket number, which is not set here. */
  function AddFields(total: nat, table: byte, dbId: nat, meta: Meta): (h: seq<byte>)
    ensures |h| == ADD_HEADER - 2
  {
    LE16(total) + [SB_COMMAND_DB_DATA, table, SB_DBOP_ADD_RECORD] + LE16(dbId)
    + [meta.recType] + LE32(meta.uniqueId) + [1]
  }

  function SetFields(total: nat, table: byte, dbId: nat, index: nat): (h: seq<byte>)
    ensures |h| == SET_HEADER - 2
  {
    LE16(total) + [SB_COMMAND_DB_DATA, table, SB_DBOP_SET_RECORD_BY_INDEX] + LE16(dbId) + [0] + LE16(index)
  }

  /** What the device makes of an upload. */
  datatype Upload =
    | AddUpload(dbId: nat, recType: byte, uniqueId: nat, payload: seq<byte>)
    | SetUpload(dbId: nat, index: nat, payload: seq<byte>)
    | NoUpload

  function ReadUpload(raw: seq<byte>): Upload {
    if |raw| < SET_HEADER || raw[4] != SB_COMMAND_DB_DATA then NoUpload
    else if raw[6] == SB_DBOP_SET_RECORD_BY_INDEX then
      SetUpload(FromLE16(raw[7..9]), FromLE16(raw[10..12]), raw[SET_HEADER..])
    else if raw[6] == SB_DBOP_ADD_RECORD && |raw| >= ADD_HEADER then
      AddUpload(FromLE16(raw[7..9]), raw[9], FromLE32(raw[10..14]), raw[ADD_HEADER..])
    else NoUpload
  }

  lemma AddIsRead(raw: seq<byte>, table: byte, dbId: nat, meta: Meta)
    requires |raw| >= ADD_HEADER && raw[2..ADD_HEADER] == AddFields(|raw|, table, dbId, meta)
    ensures ReadUpload(raw) == AddUpload(dbId % MAX16, meta.recType, meta.uniqueId % MAX32, raw[ADD_HEADER..])
    ensures FromLE16(raw[2..4]) == |raw| % MAX16
    ensures raw[4..15] == [0x40, table, 0x41] + LE16(dbId) + [meta.recType] + LE32(meta.uniqueId) + [1]
  {
    hide LE16, LE32, FromLE16, FromLE32;
    var h := raw[2..ADD_HEADER];
    SliceSlice(raw, 2, ADD_HEADER, 2, 13);
    assert h[2..13] == [0x40, table, 0x41] + LE16(dbId) + [meta.recType] + LE32(meta.uniqueId) + [1];
    RoundTrip16(|raw|);
    RoundTrip16(dbId);
    RoundTrip32(meta.uniqueId);
    assert h[..2] == LE16(|raw|) && h[5..7] == LE16(dbId) && h[8..12] == LE32(meta.uniqueId);
    SliceSlice(raw, 2, ADD_HEADER, 0, 2);
    SliceSlice(raw, 2, ADD_HEADER, 5, 7);
    SliceSlice(raw, 2, ADD_HEADER, 8, 12);
    assert raw[4] == h[2] && raw[6] == h[4] && raw[9] == h[7];
  }

  lemma SetIsRead(raw: seq<byte>, table: byte, dbId: nat, index: nat)
    requires |raw| >= SET_HEADER && raw[2..SET_HEADER] == SetFields(|raw|, table, dbId, index)
    ensures ReadUpload(raw) == SetUpload(dbId % MAX16, index % MAX16, raw[SET_HEADER..])
    ensures FromLE16(raw[2..4]) == |raw| % MAX16
    ensures raw[4..12] == [0x40, table, 0x55] + LE16(dbId) + [0] + LE16(index)
  {
    hide LE16, FromLE16;
    var h := raw[2..SET_HEADER];
    SliceSlice(raw, 2, SET_HEADER, 2, 10);
    assert h[2..10] == [0x40, table, 0x55] + LE16(dbId) + [0] + LE16(index);
    RoundTrip16(|raw|);
    RoundTrip16(dbId);
    RoundTrip16(index);
    assert h[..2] == LE16(|raw|) && h[5..7] == LE16(dbId) && h[8..10] == LE16(index);
    SliceSlice(raw, 2, SET_HEADER, 0, 2);
    SliceSlice(raw, 2, SET_HEADER, 5, 7);
    SliceSlice(raw, 2, SET_HEADER, 8, 10);
    assert raw[4] == h[2] && raw[6] == h[4];
  }

  lemma HeaderPut(s: Buf, fields: seq<byte>)
    requires s.Valid() && !s.external && 2 + |fields| <= s.size
    ensures var r := BufferModel.Poke(s, 2, fields).(size := s.size);
            && r.Valid() && |r.Content()| == s.size
            && r.Content()[2..2 + |fields|] == fields
            && r.Content()[2 + |fields|..] == s.Content()[2 + |fields|..]
  {
    hide Splice, BufferModel.Poke;
    PokeWrites(s, 2, fields);
    var r := BufferModel.Poke(s, 2, fields).(size := s.size);
    PokedShape(s, fields);
    var c, d, n: nat := r.Content(), s.Content(), 2 + |fields|;
    forall k | 0 <= k < |fields| ensures c[2..n][k] == fields[k] {
      PokeAt(s, 2, fields, 2 + k);
    }
    forall k | 0 <= k < s.size - n ensures c[n..][k] == d[n..][k] {
      PokeAt(s, 2, fields, n + k);
    }
  }

  lemma PokedShape(s: Buf, fields: seq<byte>)
    requires s.Valid() && !s.external && 2 + |fields| <= s.size
    ensures var r := BufferModel.Poke(s, 2, fields).(size := s.size);
            r.Valid() && |r.Content()| == s.size == |s.Content()|
  {
  }

  /** Header fields written over the front of a packet. */
  method PutHeader(send: Data, fields: seq<byte>)
    requires send.Valid() && 2 + |fields| <= |send.Content()|
    modifies send, send.memBlock
    ensures send.Valid() && (send.memBlock == old(send.memBlock) || fresh(send.memBlock))
    ensures |send.Content()| == |old(send.Content())|
    ensures send.Content()[2..2 + |fields|] == fields
    ensures send.Content()[2 + |fields|..] == old(send.Content())[2 + |fields|..]
  {
    hide BufferModel.GetBuffer, BufferModel.MakeSpace, BufferModel.Poke, Splice, Buf.Content;
    var total := send.dataSize;
    ContentSize(send.state);
    GetBufferFits(send.state, total);
    send.GetBuffer(total);
    ContentSize(send.state);
    HeaderPut(send.state, fields);
    send.Poke(2, fields);
    var ok := send.ReleaseBuffer(total);
  }

  /** Whatever the send buffer held before, the device is told to add exactly this record. */
  method AddRecord(send: Data, table: byte, dbId: nat, build: DBDataObject) returns (ok: bool)
    requires build.Valid() && send.Valid() && build.data != send && build.data.memBlock != send.memBlock
    requires build.offset == ADD_HEADER ==> build.Sound()
    modifies send, send.memBlock
    ensures send.Valid() && (send.memBlock == old(send.memBlock) || fresh(send.memBlock))
    ensures ok <==> old(build.Sound())
    ensures ok ==> ReadUpload(send.Content())
                   == AddUpload(dbId % MAX16, build.meta.recType, build.meta.uniqueId % MAX32, old(build.Payload()))
    ensures ok ==> FromLE16(send.Content()[2..4]) == |send.Content()| % MAX16
    ensures ok ==> send.Content()[4..15] == [0x40, table, 0x41] + LE16(dbId) + [build.meta.recType]
                                            + LE32(build.meta.uniqueId) + [1]
  {
    hide AddFields, ReadUpload;
    var data := new DBDataObject(Meta("", 0, 0), 0, send);
    ok := BuildRecord(build, data, ADD_HEADER);
    if ok {
      PutHeader(send, AddFields(send.dataSize, table, dbId, data.meta));
      AddIsRead(send.Content(), table, dbId, data.meta);
    }
  }

  /** An overwritten record gets a new payload; its type and id are not sent at all. */
  method SetRecordByIndex(send: Data, table: byte, dbId: nat, index: nat, build: DBDataObject) returns (ok: bool)
    requires build.Valid() && send.Valid() && build.data != send && build.data.memBlock != send.memBlock
    requires build.offset == SET_HEADER ==> build.Sound()
    modifies send, send.memBlock
    ensures send.Valid() && (send.memBlock == old(send.memBlock) || fresh(send.memBlock))
    ensures ok <==> old(build.Sound())
    ensures ok ==> ReadUpload(send.Content()) == SetUpload(dbId % MAX16, index % MAX16, old(build.Payload()))
    ensures ok ==> FromLE16(send.Content()[2..4]) == |send.Content()| % MAX16
    ensures ok ==> send.Content()[4..12] == [0x40, table, 0x55] + LE16(dbId) + [0] + LE16(index)
  {
    hide SetFields, ReadUpload;
    var data := new DBDataObject(Meta("", 0, 0), 0, send);
    ok := BuildRecord(build, data, SET_HEADER);
    if ok {
      PutHeader(send, SetFields(send.dataSize, table, dbId, index));
      SetIsRead(send.Content(), table, dbId, index);
    }
  }
}
