/** The device as desktop mode sees it: its databases, and its answers to a bulk read. */
module Desktop {
  import opened Bytes
  import opened RecordState
  import opened RecordStateProofs
  import opened MergeModel
  import opened DataBuffer
  import RecordBuilder

  type u32 = x: int | 0 <= x < MAX32

  /** A record with its raw data block; the record itself begins at `offset`. */
  datatype DBData = DBData(dbName: string, recType: byte, uniqueId: u32, offset: nat, bytes: seq<byte>)
  {
    predicate Sound() {
      offset <= |bytes|
    }

    function AsRecord(): Record {
      Record(dbName, recType, uniqueId, if Sound() then bytes[offset..] else [])
    }
  }

  /** One answer of the device. */
  type Packet = seq<byte>

  const SB_COMMAND_DB_DATA: byte := 0x40
  const SB_COMMAND_DB_DONE: byte := 0x41
  const COMMAND_END := 5
  const RECORD_OFFSET := 15

  /** CheckSize, when it does not throw: the packet is long enough, and the size in it agrees unless it cannot. */
  predicate GoodSize(raw: Packet, required: nat) {
    |raw| >= required && (|raw| < 4 || FromLE16(raw[2..4]) == |raw| || |raw| > 0xffff)
  }

  /** The end of a bulk read. */
  predicate IsDone(raw: Packet) {
    GoodSize(raw, COMMAND_END) && raw[4] == SB_COMMAND_DB_DONE
  }

  predicate IsData(raw: Packet) {
    GoodSize(raw, COMMAND_END) && raw[4] == SB_COMMAND_DB_DATA
  }

  /** Reading the packet does not throw. */
  predicate Proper(raw: Packet) {
    GoodSize(raw, COMMAND_END) && (IsData(raw) ==> GoodSize(raw, RECORD_OFFSET))
  }

  /** ParseMeta, when it does not throw. */
  function Meta(name: string, raw: Packet): (d: DBData)
    requires GoodSize(raw, RECORD_OFFSET)
    ensures d.Sound() && d.dbName == name
  {
    DBData(name, raw[7], FromLE32(raw[10..14]), RECORD_OFFSET, raw)
  }

  ghost predicate RangesFit(dbs: Device) {
    forall n :: n in dbs ==> DbFits(dbs[n])
  }

  ghost predicate DbFits(db: Db) {
    forall i :: i in db ==> i < MAX16 && db[i].id < MAX32
  }

  /** The state table of a database, from index `from` on. */
  function Listing(db: Db, from: nat): (es: seq<State>)
    requires from <= MAX16
    requires forall i :: i in db ==> i < MAX16 && db[i].id < MAX32
    ensures forall e :: e in es ==> OnWire(e)
    decreases MAX16 - from
  {
    if from == MAX16 then [] else
      (if from in db then [StateAt(db, from)] else [])
      + Listing(db, from + 1)
  }

  function StateAt(db: Db, i: nat): State
    requires i in db && db[i].id < MAX32 && i < MAX16
  {
    State(i, db[i].id, false, db[i].recType, Zeros(4))
  }

  /** The table holds what the database has below index `n`. */
  ghost predicate TableBelow(db: Db, n: nat, m: StateMap) {
    && (forall i :: i in m <==> i in db && i < n)
    && (forall i :: i in m ==> m[i].recordId == db[i].id)
  }

  lemma ListingStep(db: Db, from: nat, m: StateMap)
    requires from < MAX16 && DbFits(db)
    ensures TableOf(m, Listing(db, from))
         == TableOf(if from in db then m[from := StateAt(db, from)] else m, Listing(db, from + 1))
  {
    if from in db {
      assert Listing(db, from)[1..] == Listing(db, from + 1);
    } else {
      assert Listing(db, from) == Listing(db, from + 1);
    }
  }

  lemma ListingEnd(db: Db, m: StateMap)
    requires DbFits(db) && TableBelow(db, MAX16, m)
    ensures TableOf(m, Listing(db, MAX16)) == m && InRange(m) && Ids(m) == IdsOf(db)
  {
  }

  lemma {:induction false} ListingIds(db: Db, from: nat, m: StateMap)
    requires from <= MAX16 && DbFits(db) && TableBelow(db, from, m)
    ensures var t := TableOf(m, Listing(db, from)); InRange(t) && Ids(t) == IdsOf(db)
    decreases MAX16 - from
  {
    hide Listing, TableOf, InRange, Ids, IdsOf;
    if from == MAX16 {
      ListingEnd(db, m);
    } else {
      ListingStep(db, from, m);
      ListingIds(db, from + 1, if from in db then m[from := StateAt(db, from)] else m);
    }
  }

  lemma {:induction false} AllIndices(keys: set<nat>, n: nat)
    requires forall i :: 0 <= i < n ==> i in keys
    ensures |keys| >= n
  {
    if n > 0 {
      AllIndices(keys - {n - 1}, n - 1);
    }
  }

  /** What the device is able to do at all. */
  predicate CanObey(dbs: Device, u: RecordBuilder.Upload) {
    match u
    case AddUpload(n, _, _, _) => n in dbs && |dbs[n].Keys| < MAX16
    case SetUpload(n, i, _) => n in dbs && i in dbs[n]
    case NoUpload => false
  }

  /** A new record gets some free index; an overwritten one keeps its type and id. */
  ghost predicate Obeyed(before: Device, u: RecordBuilder.Upload, after: Device) {
    match u
    case AddUpload(n, recType, id, payload) =>
      n in before
      && exists i :: i !in before[n] && after == before[n := before[n][i := Entry(recType, id, payload)]]
    case SetUpload(n, i, payload) =>
      n in before && i in before[n]
      && after == before[n := before[n][i := before[n][i].(payload := payload)]]
    case NoUpload => false
  }

  lemma ObeyedAdd(before: Device, dbId: nat, data: DBData)
    ensures var u := RecordBuilder.AddUpload(dbId, data.recType, data.uniqueId, data.AsRecord().payload);
            && (CanObey(before, u) <==> dbId in before && |before[dbId].Keys| < MAX16)
            && forall after :: Obeyed(before, u, after) ==> Added(before, dbId, data, after)
  {
  }

  lemma ObeyedSet(before: Device, dbId: nat, index: nat, data: DBData)
    ensures var u := RecordBuilder.SetUpload(dbId, index, data.AsRecord().payload);
            && (CanObey(before, u) <==> dbId in before && index in before[dbId])
            && forall after :: Obeyed(before, u, after) ==>
                 dbId in before && index in before[dbId]
                 && after == before[dbId := before[dbId][index := before[dbId][index]
                                            .(payload := data.AsRecord().payload)]]
  {
  }

  /** The record is new in the database, at some free index. */
  ghost predicate Added(before: Device, dbId: nat, data: DBData, after: Device) {
    dbId in before
    && exists i :: i !in before[dbId] && after == before[dbId := before[dbId][i := AsEntry(data.AsRecord())]]
  }

  lemma UploadFits(raw: seq<byte>)
    ensures var u := RecordBuilder.ReadUpload(raw); u.AddUpload? ==> u.uniqueId < MAX32
  {
  }

  /** The record over its raw bytes, which are not copied. */
  method Local(data: DBData) returns (local: RecordBuilder.DBDataObject)
    ensures fresh(local) && fresh(local.data) && fresh(local.data.memBlock) && local.Valid()
    ensures local.meta == RecordBuilder.Meta(data.dbName, data.recType, data.uniqueId) && local.offset == data.offset
    ensures local.Sound() <==> data.Sound()
    ensures data.Sound() ==> local.Payload() == data.AsRecord().payload
  {
    var bytes := new Data.External(data.bytes);
    local := new RecordBuilder.DBDataObject(RecordBuilder.Meta(data.dbName, data.recType, data.uniqueId), data.offset,
                                            bytes);
    assert data.bytes[..|data.bytes|] == data.bytes;
  }

  class Desktop {
    const dbdb: DbList
    /** What the device sends when asked for all records of a database. */
    const answers: map<nat, seq<Packet>>
    /** Whether the device is willing to do the k-th write it is asked for. */
    const willing: nat -> bool
    /** The command code of this connection, and the buffer every packet is built in. */
    const tableCommand: byte
    const command: Data
    var dbs: Device
    var pending: seq<Packet>
    var asked: nat
    /** How many times the end of a database has been received, and a write been refused. */
    ghost var ends: nat
    ghost var refusals: nat

    ghost predicate Valid()
      reads this, command, command.memBlock
    {
      && command.Valid() && RangesFit(dbs)
      && forall k :: 0 <= k < |dbdb| ==> dbdb[k].number in dbs && dbdb[k].number < MAX16
    }

    /** The last write was refused for a reason: the device was not willing, or a database is full. */
    ghost predicate Declined()
      reads this
    {
      asked > 0 && (!willing(asked - 1) || exists n :: n in dbs && |dbs[n].Keys| >= MAX16)
    }

    constructor (dbdb: DbList, dbs: Device, answers: map<nat, seq<Packet>>, willing: nat -> bool, tableCommand: byte)
      requires RangesFit(dbs)
      requires forall k :: 0 <= k < |dbdb| ==> dbdb[k].number in dbs && dbdb[k].number < MAX16
      ensures Valid() && fresh(command) && fresh(command.memBlock) && refusals == 0
      ensures this.dbdb == dbdb && this.dbs == dbs && this.answers == answers && this.willing == willing
    {
      this.dbdb, this.dbs, this.answers, this.willing := dbdb, dbs, answers, willing;
      this.tableCommand := tableCommand;
      command := new Data();
      pending, asked, ends, refusals := [], 0, 0, 0;
    }

    // ------------------------------------------------------------- the reader

    function Answer(dbId: nat): seq<Packet> {
      if dbId in answers then answers[dbId] else []
    }

    /** None when the device stays silent and the read times out. */
    method Receive() returns (p: seq<Packet>)
      modifies `pending, `ends
      ensures old(pending) == [] ==> p == [] && pending == []
      ensures old(pending) != [] ==> p == [old(pending)[0]] && pending == old(pending)[1..]
      ensures ends == old(ends) + if p != [] && IsDone(p[0]) then 1 else 0
    {
      p := [];
      if pending != [] {
        p, pending := [pending[0]], pending[1..];
        ends := ends + if p != [] && IsDone(p[0]) then 1 else 0;
      }
    }

    method GetRecords(dbId: nat)
      modifies `pending
      ensures pending == Answer(dbId)
    {
      pending := Answer(dbId);
    }

    // ------------------------------------------------------------- the writer

    /** The device does what the packet says, or answers with an error; then the C++ method throws. */
    method Execute(raw: seq<byte>) returns (ok: bool)
      requires Valid()
      modifies `dbs, `asked, `refusals
      ensures Valid() && dbs.Keys == old(dbs).Keys
      ensures asked == old(asked) + 1 && refusals == old(refusals) + if ok then 0 else 1
      ensures ok <==> willing(old(asked)) && CanObey(old(dbs), RecordBuilder.ReadUpload(raw))
      ensures ok ==> Obeyed(old(dbs), RecordBuilder.ReadUpload(raw), dbs)
      ensures !ok ==> dbs == old(dbs)
    {
      var u := RecordBuilder.ReadUpload(raw);
      UploadFits(raw);
      ok := willing(asked) && CanObey(dbs, u);
      if ok {
        if u.AddUpload? {
          var db := dbs[u.dbId];
          if forall i: nat :: i < MAX16 ==> i in db.Keys {
            AllIndices(db.Keys, MAX16);
          }
          var i: nat :| i < MAX16 && i !in db;
          dbs := dbs[u.dbId := db[i := Entry(u.recType, u.uniqueId, u.payload)]];
          assert i !in old(dbs)[u.dbId];
        } else {
          dbs := dbs[u.dbId := dbs[u.dbId][u.index := dbs[u.dbId][u.index].(payload := u.payload)]];
        }
      }
      asked, refusals := asked + 1, refusals + if ok then 0 else 1;
    }

    /** The packet for a new record, built in the command buffer. */
    method AddPacket(dbId: nat, data: DBData) returns (raw: seq<byte>)
      requires Valid() && data.Sound() && dbId < MAX16
      modifies command, command.memBlock
      ensures Valid() && (command.memBlock == old(command.memBlock) || fresh(command.memBlock))
      ensures RecordBuilder.ReadUpload(raw)
           == RecordBuilder.AddUpload(dbId, data.recType, data.uniqueId, data.AsRecord().payload)
    {
      hide RecordBuilder.ReadUpload, RangesFit, RecordBuilder.DBDataObject.Sound, RecordBuilder.DBDataObject.Payload,
           DBData.Sound, DBData.AsRecord;
      var build := Local(data);
      var built := RecordBuilder.AddRecord(command, tableCommand, dbId, build);
      raw := command.GetData();
    }

    method SetPacket(dbId: nat, index: nat, data: DBData) returns (raw: seq<byte>)
      requires Valid() && data.Sound() && dbId < MAX16 && index < MAX16
      modifies command, command.memBlock
      ensures Valid() && (command.memBlock == old(command.memBlock) || fresh(command.memBlock))
      ensures RecordBuilder.ReadUpload(raw) == RecordBuilder.SetUpload(dbId, index, data.AsRecord().payload)
    {
      hide RecordBuilder.ReadUpload, RangesFit, RecordBuilder.DBDataObject.Sound, RecordBuilder.DBDataObject.Payload,
           DBData.Sound, DBData.AsRecord;
      var build := Local(data);
      var built := RecordBuilder.SetRecordByIndex(command, tableCommand, dbId, index, build);
      raw := command.GetData();
    }

    method AddRecord(dbId: nat, data: DBData) returns (ok: bool)
      requires Valid() && data.Sound() && dbId < MAX16
      modifies `dbs, `asked, `refusals, command, command.memBlock
      ensures Valid() && dbs.Keys == old(dbs).Keys
      ensures command.memBlock == old(command.memBlock) || fresh(command.memBlock)
      ensures asked == old(asked) + 1 && refusals == old(refusals) + if ok then 0 else 1
      ensures ok <==> willing(old(asked)) && dbId in old(dbs) && |old(dbs)[dbId].Keys| < MAX16
      ensures ok ==> Added(old(dbs), dbId, data, dbs)
      ensures !ok ==> dbs == old(dbs)
    {
      hide RecordBuilder.ReadUpload, RangesFit, Obeyed, CanObey;
      var raw := AddPacket(dbId, data);
      ObeyedAdd(dbs, dbId, data);
      ok := Execute(raw);
    }

    /** An upload by index replaces the payload only. */
    method SetRecord(dbId: nat, index: nat, data: DBData) returns (ok: bool)
      requires Valid() && data.Sound() && dbId < MAX16 && index < MAX16
      modifies `dbs, `asked, `refusals, command, command.memBlock
      ensures Valid() && dbs.Keys == old(dbs).Keys
      ensures command.memBlock == old(command.memBlock) || fresh(command.memBlock)
      ensures asked == old(asked) + 1 && refusals == old(refusals) + if ok then 0 else 1
      ensures ok <==> willing(old(asked)) && dbId in old(dbs) && index in old(dbs)[dbId]
      ensures ok ==> dbs == old(dbs)[dbId := old(dbs)[dbId][index := old(dbs)[dbId][index]
                                             .(payload := data.AsRecord().payload)]]
      ensures !ok ==> dbs == old(dbs)
    {
      hide RecordBuilder.ReadUpload, RangesFit, Obeyed, CanObey;
      var raw := SetPacket(dbId, index, data);
      ObeyedSet(dbs, dbId, index, data);
      ok := Execute(raw);
    }

    method ClearDatabase(dbId: nat) returns (ok: bool)
      requires Valid()
      modifies `dbs, `asked, `refusals
      ensures Valid() && dbs.Keys == old(dbs).Keys
      ensures asked == old(asked) + 1 && refusals == old(refusals) + if ok then 0 else 1
      ensures ok <==> willing(old(asked)) && dbId in old(dbs)
      ensures dbs == if ok then old(dbs)[dbId := map[]] else old(dbs)
    {
      ok := willing(asked) && dbId in dbs;
      if ok {
        dbs := dbs[dbId := map[]];
      }
      asked, refusals := asked + 1, refusals + if ok then 0 else 1;
    }

    /** The table as the device sends it, through the parser. */
    method GetRecordStateTable(dbId: nat, table: RecordStateTable)
      requires Valid() && dbId in dbs
      modifies table
      ensures table.Valid() && Ids(table.stateMap) == IdsOf(dbs[dbId]) && table.lastNewRecordId == 1
    {
      var entries := Listing(dbs[dbId], 0);
      ListingIds(dbs[dbId], 0, map[]);
      PacketRoundTrip(map[], Zeros(12), entries);
      table.Clear();
      var wire := Zeros(12) + TableBytes(entries);
      table.Parse(wire);
    }
  }
}
