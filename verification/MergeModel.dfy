/** Writing a stream of records into a device: the states of the merge and its steps. */
module MergeModel {
  import opened Bytes
  import opened RecordState
  import opened RecordStateProofs

  datatype Mode =
    | EraseAllWriteAll
    | IndividualOverwrite
    | AddButNoOverwrite
    | AddWithNewId
    | DropRecord

  /** A record as the device stores it. */
  datatype Entry = Entry(recType: byte, id: nat, payload: seq<byte>)

  /** One database of the device: the index of the state table finds the record. */
  type Db = map<nat, Entry>

  type Device = map<nat, Db>

  /** A record on its way, tagged with the name of its database. */
  datatype Record = Record(name: string, recType: byte, id: nat, payload: seq<byte>)

  datatype Listed = Listed(number: nat, name: string)

  type DbList = seq<Listed>

  predicate Lists(list: DbList, name: string) {
    exists k :: 0 <= k < |list| && list[k].name == name
  }

  /** The first entry of that name. */
  function Number(list: DbList, name: string): (n: nat)
    requires Lists(list, name)
    ensures exists k :: 0 <= k < |list| && list[k] == Listed(n, name)
  {
    if list[0].name == name then list[0].number else Number(list[1..], name)
  }

  function IdsOf(db: Db): IdMap {
    map i | i in db :: db[i].id
  }

  function AsEntry(r: Record): Entry {
    Entry(r.recType, r.id, r.payload)
  }

  // -------------------------------------------------------------------- steps

  /** The parser and the device: m_current_db, m_current_dbid and the loaded state table. */
  datatype Merge = Merge(dbs: Device, name: string, dbid: nat, table: IdMap, last: nat)

  /** The device picks a free index for a new record. */
  ghost predicate Adds(s: Merge, e: Entry, dbs: Device) {
    && s.dbid in s.dbs
    && exists i :: i !in s.dbs[s.dbid] && dbs == s.dbs[s.dbid := s.dbs[s.dbid][i := e]]
  }

  /** An upload by index carries no type and no id, so the record keeps its own. */
  ghost predicate Overwrites(s: Merge, r: Record, dbs: Device)
    requires HasId(s.table, r.id)
  {
    var i := IndexOfId(s.table, r.id);
    && s.dbid in s.dbs && i in s.dbs[s.dbid]
    && dbs == s.dbs[s.dbid := s.dbs[s.dbid][i := s.dbs[s.dbid][i].(payload := r.payload)]]
  }

  ghost predicate Renames(s: Merge, r: Record, t: Merge, mark: nat) {
    && FirstFree(UsedIds(s.table), s.last, mark) && t.last == Wrap(mark)
    && Adds(s, Entry(r.recType, Wrap(mark), r.payload), t.dbs)
  }

  /** WriteNext, when nothing is thrown. */
  ghost predicate Writes(mode: Mode, s: Merge, r: Record, t: Merge) {
    && t.name == s.name && t.dbid == s.dbid && t.table == s.table
    && (mode != AddWithNewId ==> t.last == s.last)
    && match mode
       case EraseAllWriteAll => Adds(s, AsEntry(r), t.dbs)
       case IndividualOverwrite =>
         if HasId(s.table, r.id) then Overwrites(s, r, t.dbs) else Adds(s, AsEntry(r), t.dbs)
       case AddButNoOverwrite =>
         if HasId(s.table, r.id) then t.dbs == s.dbs else Adds(s, AsEntry(r), t.dbs)
       case AddWithNewId => exists mark :: Renames(s, r, t, mark)
       case DropRecord => t.dbs == s.dbs
  }

  /** StartDB up to its first write. */
  function Started(list: DbList, mode: Mode, s: Merge, name: string): Merge
    requires Lists(list, name) && Number(list, name) in s.dbs
  {
    var n := Number(list, name);
    match mode
    case EraseAllWriteAll => Merge(s.dbs[n := map[]], name, n, map[], 1)
    case DropRecord => Merge(s.dbs, name, n, map[], 1)
    case _ => Merge(s.dbs, name, n, IdsOf(s.dbs[n]), 1)
  }

  /** ParseRecord, when nothing is thrown. */
  ghost predicate Next(list: DbList, mode: Mode, s: Merge, r: Record, t: Merge) {
    if r.name == s.name then Writes(mode, s, r, t)
    else if !Lists(list, r.name) then t == Merge(s.dbs, "", 0, map[], 1)
    else Number(list, r.name) in s.dbs && Writes(mode, Started(list, mode, s, r.name), r, t)
  }

  /** A whole stream, record by record. */
  ghost predicate Run(list: DbList, mode: Mode, s: Merge, stream: seq<Record>, t: Merge)
    decreases |stream|, 0
  {
    if stream == [] then s == t
    else RunThen(list, mode, s, stream[..|stream| - 1], stream[|stream| - 1], t)
  }

  ghost predicate RunThen(list: DbList, mode: Mode, s: Merge, init: seq<Record>, r: Record, t: Merge)
    decreases |init|, 1
  {
    exists mid :: Run(list, mode, s, init, mid) && Next(list, mode, mid, r, t)
  }

  // ------------------------------------------------------- what a merge means

  /** `db` is `base` and the added entries, each at an index of its own. */
  ghost predicate Plus(base: Db, added: seq<Entry>, db: Db)
    decreases |added|, 1
  {
    if added == [] then db == base else
      exists i :: i in db && LastAt(base, added, db, i)
  }

  /** The last added entry is at index i. */
  ghost predicate LastAt(base: Db, added: seq<Entry>, db: Db, i: nat)
    requires added != [] && i in db
    decreases |added|, 0
  {
    db[i] == added[|added| - 1] && Plus(base, added[..|added| - 1], db - {i})
  }

  function Entries(rs: seq<Record>): seq<Entry> {
    seq(|rs|, k requires 0 <= k < |rs| => AsEntry(rs[k]))
  }

  function Renamed(rs: seq<Record>, ids: seq<nat>): seq<Entry>
    requires |ids| == |rs|
  {
    seq(|rs|, k requires 0 <= k < |rs| => Entry(rs[k].recType, ids[k], rs[k].payload))
  }

  /** The records whose id the table did not have when it was loaded, in order. */
  ghost function Unlisted(table: IdMap, rs: seq<Record>): seq<Entry> {
    if rs == [] then [] else
    var r := rs[|rs| - 1];
    Unlisted(table, rs[..|rs| - 1]) + if HasId(table, r.id) then [] else [AsEntry(r)]
  }

  /** Each listed record's payload put at the least index of its id, in order. */
  ghost function Overwritten(db: Db, table: IdMap, rs: seq<Record>): (o: Db)
    requires table.Keys <= db.Keys
    ensures o.Keys == db.Keys
  {
    if rs == [] then db else
    var r, o := rs[|rs| - 1], Overwritten(db, table, rs[..|rs| - 1]);
    if !HasId(table, r.id) then o else
    var i := IndexOfId(table, r.id);
    o[i := o[i].(payload := r.payload)]
  }

  /** What the records `rs` make of a database that held `before`; `marks` count the new ids. */
  ghost predicate Outcome(mode: Mode, before: Db, rs: seq<Record>, marks: seq<nat>, after: Db) {
    var table := IdsOf(before);
    match mode
    case EraseAllWriteAll => Plus(map[], Entries(rs), after)
    case IndividualOverwrite => Plus(Overwritten(before, table, rs), Unlisted(table, rs), after)
    case AddButNoOverwrite => Plus(before, Unlisted(table, rs), after)
    case AddWithNewId =>
      && |marks| == |rs| && Generated(UsedIds(table), 1, marks)
      && Plus(before, Renamed(rs, NewIds(marks)), after)
    case DropRecord => after == before
  }
}
