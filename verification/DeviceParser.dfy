/** `DeviceParser`: writes incoming records into the device under one of the write modes. */
module DeviceParser {
  import opened Bytes
  import opened RecordState
  import opened MergeModel
  import opened MergeRuns
  import opened Desktop

  /** What a record that could not be written has done: nothing, or it has had its database erased. */
  ghost predicate Partial(list: DbList, mode: Mode, before: Device, r: Record, after: Device) {
    after == before
    || (mode.EraseAllWriteAll? && Lists(list, r.name) && after == before[Number(list, r.name) := map[]])
  }

  class DeviceParser {
    const desktop: Desktop
    const mode: Mode
    const rstate: RecordStateTable
    var currentDb: string
    var currentDbId: nat

    /** All records parsed so far, the state they started from, and the state after the last of them;
     * and the record that could not be written, after which the parser is not to be used again. */
    ghost var history: seq<Record>
    ghost const origin: Device
    ghost var reached: Merge
    ghost var failed: seq<Record>

    ghost function Now(): Merge
      reads this, desktop, rstate
    {
      Merge(desktop.dbs, currentDb, currentDbId, Ids(rstate.stateMap), rstate.lastNewRecordId)
    }

    /** The device holds what a run over the history has made of the original one, except for what the
     * failed record has done. */
    ghost predicate Intact()
      reads this, desktop, desktop.command, desktop.command.memBlock
    {
      && desktop.Valid() && desktop.dbs.Keys == origin.Keys
      && Run(desktop.dbdb, mode, Merge(origin, "", 0, map[], 1), history, reached)
      && (if failed == [] then desktop.dbs == reached.dbs
          else Partial(desktop.dbdb, mode, reached.dbs, failed[0], desktop.dbs))
    }

    /** The current database is one of the device's, which still has every record of the state table. */
    ghost predicate Situated()
      reads `currentDb, `currentDbId, desktop`dbs, rstate`stateMap
    {
      && currentDbId < MAX16
      && (currentDb != "" || rstate.stateMap != map[] ==> currentDbId in desktop.dbs)
      && (rstate.stateMap != map[] ==> rstate.stateMap.Keys <= desktop.dbs[currentDbId].Keys)
    }

    ghost predicate Valid()
      reads this, desktop, desktop.command, desktop.command.memBlock, rstate
    {
      Intact() && rstate.Valid() && Situated() && failed == [] && reached == Now()
    }

    constructor (desktop: Desktop, mode: Mode)
      requires desktop.Valid()
      ensures Valid() && fresh(rstate)
      ensures this.desktop == desktop && this.mode == mode && history == [] && origin == desktop.dbs
    {
      this.desktop, this.mode := desktop, mode;
      rstate := new RecordStateTable();
      currentDb, currentDbId := "", 0;
      history, failed := [], [];
      origin := desktop.dbs;
      reached := Merge(desktop.dbs, "", 0, map[], 1);
      new;
      assert Ids(rstate.stateMap) == map[];
    }

    /** A sound record fails only if the device refuses it, and then nothing has changed. */
    method WriteNext(data: DBData) returns (ok: bool)
      requires desktop.Valid() && rstate.Valid() && Situated()
      modifies rstate`lastNewRecordId, desktop`dbs, desktop`asked, desktop`refusals
      modifies desktop.command, desktop.command.memBlock
      ensures desktop.Valid() && rstate.Valid() && Situated() && desktop.dbs.Keys == old(desktop.dbs).Keys
      ensures desktop.command.memBlock == old(desktop.command.memBlock) || fresh(desktop.command.memBlock)
      ensures ok ==> Writes(mode, old(Now()), data.AsRecord(), Now())
      ensures ok ==> desktop.refusals == old(desktop.refusals)
      ensures !ok ==> desktop.dbs == old(desktop.dbs)
      ensures !ok && data.Sound() ==> desktop.refusals > old(desktop.refusals)
      ensures !ok && data.Sound() && currentDb != "" ==> desktop.Declined()
    {
      hide Writes, Adds, Overwrites, Situated, FirstFree, Desktop.Declined, RangesFit;
      ghost var s, r := Now(), data.AsRecord();
      match mode {
        case EraseAllWriteAll =>
          ok := Add(data);
        case IndividualOverwrite =>
          var found, index := rstate.GetIndex(data.uniqueId);
          if found {
            ok := Overwrite(data, index);
          } else {
            ok := Add(data);
          }
        case AddButNoOverwrite =>
          var found, index := rstate.GetIndex(data.uniqueId);
          ok := true;
          if !found {
            ok := Add(data);
          }
        case AddWithNewId =>
          ok := AddRenamed(data);
        case DropRecord =>
          ok := true;
      }
      if ok && !mode.AddWithNewId? {
        PlainWrites(mode, s, r, Now());
      }
    }

    /** AddRecord through a DBDataBuilder, which throws if the offset is past the data. */
    method Add(data: DBData) returns (ok: bool)
      requires desktop.Valid() && Situated()
      modifies desktop`dbs, desktop`asked, desktop`refusals, desktop.command, desktop.command.memBlock
      ensures desktop.Valid() && Situated() && desktop.dbs.Keys == old(desktop.dbs).Keys
      ensures desktop.command.memBlock == old(desktop.command.memBlock) || fresh(desktop.command.memBlock)
      ensures ok ==> Adds(old(Now()), AsEntry(data.AsRecord()), desktop.dbs)
      ensures ok ==> desktop.refusals == old(desktop.refusals)
      ensures !ok ==> desktop.dbs == old(desktop.dbs)
      ensures !ok && data.Sound() ==> desktop.refusals > old(desktop.refusals)
      ensures !ok && data.Sound() && currentDb != "" ==> desktop.Declined()
    {
      ok := data.Sound();
      if ok {
        ok := desktop.AddRecord(currentDbId, data);
      }
    }

    method AddRenamed(data: DBData) returns (ok: bool)
      requires desktop.Valid() && rstate.Valid() && Situated()
      modifies rstate`lastNewRecordId, desktop`dbs, desktop`asked, desktop`refusals
      modifies desktop.command, desktop.command.memBlock
      ensures desktop.Valid() && rstate.Valid() && Situated() && desktop.dbs.Keys == old(desktop.dbs).Keys
      ensures desktop.command.memBlock == old(desktop.command.memBlock) || fresh(desktop.command.memBlock)
      ensures ok ==> Writes(AddWithNewId, old(Now()), data.AsRecord(), Now())
      ensures ok ==> desktop.refusals == old(desktop.refusals)
      ensures !ok ==> desktop.dbs == old(desktop.dbs)
      ensures !ok && data.Sound() ==> desktop.refusals > old(desktop.refusals)
      ensures !ok && data.Sound() && currentDb != "" ==> desktop.Declined()
    {
      hide Writes, Adds, Situated, FirstFree, Desktop.Declined;
      ghost var s := Now();
      var id, mark := rstate.MakeNewRecordId();
      ok := Add(data.(uniqueId := id));
      if ok {
        RenameWrites(s, data.AsRecord(), Now(), mark);
      }
    }

    method Overwrite(data: DBData, index: nat) returns (ok: bool)
      requires desktop.Valid() && rstate.Valid() && Situated()
      requires HasId(Ids(rstate.stateMap), data.uniqueId) && index == IndexOfId(Ids(rstate.stateMap), data.uniqueId)
      modifies desktop`dbs, desktop`asked, desktop`refusals, desktop.command, desktop.command.memBlock
      ensures desktop.Valid() && Situated() && desktop.dbs.Keys == old(desktop.dbs).Keys
      ensures desktop.command.memBlock == old(desktop.command.memBlock) || fresh(desktop.command.memBlock)
      ensures ok ==> Overwrites(old(Now()), data.AsRecord(), desktop.dbs) && desktop.refusals == old(desktop.refusals)
      ensures !ok ==> desktop.dbs == old(desktop.dbs)
      ensures !ok && data.Sound() ==> desktop.refusals > old(desktop.refusals) && desktop.Declined()
    {
      ok := data.Sound();
      if ok {
        ok := desktop.SetRecord(currentDbId, index, data);
      }
    }

    method StartDB(data: DBData) returns (ok: bool)
      requires desktop.Valid() && rstate.Valid() && data.dbName != currentDb
      modifies this`currentDb, this`currentDbId, rstate, desktop`dbs, desktop`asked, desktop`refusals
      modifies desktop.command, desktop.command.memBlock
      ensures desktop.Valid() && rstate.Valid() && desktop.dbs.Keys == old(desktop.dbs).Keys
      ensures desktop.command.memBlock == old(desktop.command.memBlock) || fresh(desktop.command.memBlock)
      ensures ok ==> Next(desktop.dbdb, mode, old(Now()), data.AsRecord(), Now()) && Situated()
      ensures ok ==> desktop.refusals == old(desktop.refusals)
      ensures !ok ==> Partial(desktop.dbdb, mode, old(desktop.dbs), data.AsRecord(), desktop.dbs)
      ensures !ok && data.Sound() ==> desktop.refusals > old(desktop.refusals)
      ensures !ok && data.Sound() && data.dbName != "" ==> desktop.Declined()
    {
      hide Writes, Started, Desktop.Declined, RangesFit;
      ghost var before := Now();
      rstate.Clear();
      assert Ids(rstate.stateMap) == map[];
      currentDb := data.dbName;
      var found, number := GetDBNumber(desktop.dbdb, currentDb);
      if !found {
        currentDb, currentDbId := "", 0;
        assert Now() == Merge(before.dbs, "", 0, map[], 1);
        SituatedNowhere();
        return true;
      }
      currentDbId := number;
      NumberIsListed(desktop.dbdb, currentDb);
      ok := Prepare(before);
      if ok && !mode.DropRecord? {
        ok := WriteNext(data);
      } else if ok {
        DroppedWrites(Now(), data.AsRecord());
      }
    }

    lemma SituatedNowhere()
      requires currentDb == "" && currentDbId == 0 && rstate.stateMap == map[]
      ensures Situated()
    {
    }

    /** What a mode does once for a database, before the first record. */
    method Prepare(ghost before: Merge) returns (ok: bool)
      requires desktop.Valid() && rstate.Valid() && Lists(desktop.dbdb, currentDb)
      requires Number(desktop.dbdb, currentDb) == currentDbId && currentDbId in desktop.dbs && currentDbId < MAX16
      requires rstate.stateMap == map[] && rstate.lastNewRecordId == 1 && before.dbs == desktop.dbs
      modifies rstate, desktop`dbs, desktop`asked, desktop`refusals
      ensures desktop.Valid() && rstate.Valid() && Situated() && desktop.dbs.Keys == old(desktop.dbs).Keys
      ensures ok ==> Now() == Started(desktop.dbdb, mode, before, currentDb)
      ensures ok ==> desktop.refusals == old(desktop.refusals)
      ensures ok ==> Partial(desktop.dbdb, mode, before.dbs, Record(currentDb, 0, 0, []), desktop.dbs)
      ensures !ok ==> desktop.dbs == old(desktop.dbs) && desktop.refusals > old(desktop.refusals) && desktop.Declined()
    {
      match mode {
        case EraseAllWriteAll =>
          ok := desktop.ClearDatabase(currentDbId);
          assert Ids(rstate.stateMap) == map[];
        case DropRecord =>
          ok := true;
          assert Ids(rstate.stateMap) == map[];
        case _ =>
          ok := true;
          desktop.GetRecordStateTable(currentDbId, rstate);
          assert rstate.stateMap.Keys == Ids(rstate.stateMap).Keys == IdsOf(desktop.dbs[currentDbId]).Keys;
      }
    }

    /** False where the C++ code throws; for a sound record that is exactly when the device refuses. */
    method ParseRecord(data: DBData) returns (ok: bool)
      requires Valid()
      modifies this, rstate, desktop`dbs, desktop`asked, desktop`refusals, desktop.command, desktop.command.memBlock
      ensures desktop.command.memBlock == old(desktop.command.memBlock) || fresh(desktop.command.memBlock)
      ensures Intact() && (ok ==> Valid())
      ensures history == old(history) + (if ok then [data.AsRecord()] else [])
      ensures failed == if ok then [] else [data.AsRecord()]
      ensures !ok ==> reached == old(reached)
      ensures ok ==> desktop.refusals == old(desktop.refusals)
      ensures !ok && data.Sound() ==> desktop.refusals > old(desktop.refusals)
      ensures !ok && data.Sound() && data.dbName != "" ==> desktop.Declined()
    {
      hide Writes, Run, Next, Partial, Situated, Desktop.Valid;
      if data.dbName == currentDb {
        ok := WriteNext(data);
        if ok {
          WritesAreNext(desktop.dbdb, mode, old(Now()), data.AsRecord(), Now());
        }
      } else {
        ok := StartDB(data);
      }
      if ok {
        RunSnoc(desktop.dbdb, mode, Merge(origin, "", 0, map[], 1), history, reached, data.AsRecord(), Now());
        history, reached := history + [data.AsRecord()], Now();
      } else {
        SamePartial(desktop.dbdb, mode, old(desktop.dbs), data.AsRecord());
        failed := [data.AsRecord()];
        assert old(history) + [] == old(history);
      }
    }
  }

  lemma RunSnoc(list: DbList, mode: Mode, s: Merge, stream: seq<Record>, mid: Merge, r: Record, t: Merge)
    requires Run(list, mode, s, stream, mid) && Next(list, mode, mid, r, t)
    ensures Run(list, mode, s, stream + [r], t)
  {
    hide Next;
    assert (stream + [r])[..|stream|] == stream;
    assert RunThen(list, mode, s, stream, r, t);
  }

  lemma WritesAreNext(list: DbList, mode: Mode, s: Merge, r: Record, t: Merge)
    requires Writes(mode, s, r, t) && r.name == s.name
    ensures Next(list, mode, s, r, t)
  {
    hide Writes;
  }

  lemma SamePartial(list: DbList, mode: Mode, before: Device, r: Record)
    ensures Partial(list, mode, before, r, before)
  {
  }

  lemma PlainWrites(mode: Mode, s: Merge, r: Record, t: Merge)
    requires !mode.AddWithNewId? && t == s.(dbs := t.dbs)
    requires match mode
             case EraseAllWriteAll => Adds(s, AsEntry(r), t.dbs)
             case IndividualOverwrite =>
               if HasId(s.table, r.id) then Overwrites(s, r, t.dbs) else Adds(s, AsEntry(r), t.dbs)
             case AddButNoOverwrite => if HasId(s.table, r.id) then t.dbs == s.dbs else Adds(s, AsEntry(r), t.dbs)
             case _ => t.dbs == s.dbs
    ensures Writes(mode, s, r, t)
  {
    hide Adds, Overwrites;
  }

  /** Before the id was made the last new id was `s.last`, and `t.last` is the new one. */
  lemma RenameWrites(s: Merge, r: Record, t: Merge, mark: nat)
    requires t == s.(dbs := t.dbs, last := t.last)
    requires FirstFree(UsedIds(s.table), s.last, mark) && t.last == Wrap(mark)
    requires Adds(s.(last := t.last), Entry(r.recType, t.last, r.payload), t.dbs)
    ensures Writes(AddWithNewId, s, r, t)
  {
    hide FirstFree;
    assert Renames(s, r, t, mark);
  }

  lemma DroppedWrites(s: Merge, r: Record)
    ensures Writes(DropRecord, s, r, s)
  {
  }

  /** The first entry of that name. */
  method GetDBNumber(list: DbList, name: string) returns (found: bool, number: nat)
    ensures found <==> Lists(list, name)
    ensures found ==> number == Number(list, name)
  {
    found, number := false, 0;
    assert list[0..] == list;
    for k := 0 to |list|
      invariant Lists(list, name) <==> Lists(list[k..], name)
      invariant Lists(list, name) ==> Number(list, name) == Number(list[k..], name)
    {
      assert list[k..][1..] == list[k + 1..];
      if list[k].name == name {
        assert list[k..][0].name == name;
        return true, list[k].number;
      }
      SkipsOther(list[k..], name);
    }
  }

  lemma SkipsOther(list: DbList, name: string)
    requires list != [] && list[0].name != name
    ensures Lists(list, name) <==> Lists(list[1..], name)
    ensures Lists(list, name) ==> Number(list, name) == Number(list[1..], name)
  {
    if Lists(list, name) {
      var k :| 0 <= k < |list| && list[k].name == name;
      assert list[1..][k - 1].name == name;
    }
    if Lists(list[1..], name) {
      var k :| 0 <= k < |list[1..]| && list[1..][k].name == name;
      assert list[k + 1].name == name;
    }
  }
}
