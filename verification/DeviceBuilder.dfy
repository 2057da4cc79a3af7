/** Reading databases from the device record by record: `DBLoader` and `DeviceBuilder`. */
module DeviceBuilder {
  import opened Bytes
  import opened MergeModel
  import opened Desktop
  import opened DeviceParser

  datatype Label = Label(id: nat, name: string)

  /** A fetch gives a record, ends a series, or throws. */
  datatype Fetched = Got(data: DBData) | End | Thrown

  /** What can be read from a list of packets: the records up to the end, and whether it is
   * reached. Silence and a malformed packet throw; packets of other kinds are skipped. */
  datatype Reading = Reading(records: seq<DBData>, ok: bool)

  function Before(d: DBData, rest: Reading): Reading {
    Reading([d] + rest.records, rest.ok)
  }

  function ReadPackets(name: string, packets: seq<Packet>): Reading {
    if packets == [] || !Proper(packets[0]) then Reading([], false)
    else if IsDone(packets[0]) then Reading([], true)
    else if IsData(packets[0]) then Before(Meta(name, packets[0]), ReadPackets(name, packets[1..]))
    else ReadPackets(name, packets[1..])
  }

  /** One database after the other, until one fails. */
  function Then(first: Reading, second: Reading): Reading {
    if first.ok then Reading(first.records + second.records, second.ok) else first
  }

  function ReadAll(d: Desktop, labels: seq<Label>): Reading {
    if labels == [] then Reading([], true)
    else Then(ReadPackets(labels[0].name, d.Answer(labels[0].id)), ReadAll(d, labels[1..]))
  }

  lemma ReadAllFrom(d: Desktop, labels: seq<Label>, k: nat)
    requires k <= |labels|
    ensures k == |labels| ==> ReadAll(d, labels[k..]) == Reading([], true)
    ensures k < |labels| ==>
              ReadAll(d, labels[k..])
              == Then(ReadPackets(labels[k].name, d.Answer(labels[k].id)), ReadAll(d, labels[k + 1..]))
  {
    if k < |labels| {
      assert labels[k..][1..] == labels[k + 1..];
    }
  }

  class DBLoader {
    const desktop: Desktop
    var loading: bool

    constructor (desktop: Desktop)
      ensures this.desktop == desktop && !loading
    {
      this.desktop := desktop;
      loading := false;
    }

    /** Asks for all records of a database and reads on to the first one. The record is tagged with
     * the name the device lists; callers replace it. */
    method StartDBLoad(dbId: nat, ghost name: string) returns (r: Fetched)
      modifies this, desktop`pending, desktop`ends
      ensures Delivers(name, desktop.Answer(dbId), r, desktop.pending)
      ensures loading <==> !r.End?
      ensures desktop.ends == old(desktop.ends) + if r.End? then 1 else 0
      ensures |desktop.pending| <= |desktop.Answer(dbId)| && (r.Got? ==> r.data.Sound())
    {
      loading := true;
      var found, dbName := GetDBName(desktop.dbdb, dbId);
      desktop.GetRecords(dbId);
      r := ReadOn(dbName, name);
      if r.End? {
        loading := false;
      }
    }

    method GetNextRecord(dbName: string, ghost name: string) returns (r: Fetched)
      modifies this, desktop`pending, desktop`ends
      ensures !old(loading) ==> r == End && !loading && desktop.pending == old(desktop.pending)
      ensures old(loading) ==> Delivers(name, old(desktop.pending), r, desktop.pending)
      ensures old(loading) ==> (loading <==> !r.End?)
      ensures desktop.ends == old(desktop.ends) + if old(loading) && r.End? then 1 else 0
      ensures old(loading) && r.Got? ==> |desktop.pending| < |old(desktop.pending)| && r.data.Sound()
    {
      if !loading {
        return End;
      }
      r := ReadOn(dbName, name);
      if r.End? {
        loading := false;
      }
    }

    /** Takes packets until one holds a record or ends the database. */
    method ReadOn(dbName: string, ghost name: string) returns (r: Fetched)
      modifies desktop`pending, desktop`ends
      ensures Delivers(name, old(desktop.pending), r, desktop.pending)
      ensures desktop.ends == old(desktop.ends) + if r.End? then 1 else 0
      ensures |desktop.pending| <= |old(desktop.pending)|
      ensures r.Got? ==> |desktop.pending| < |old(desktop.pending)| && r.data.Sound()
    {
      while true
        invariant ReadPackets(name, desktop.pending) == ReadPackets(name, old(desktop.pending))
        invariant |desktop.pending| <= |old(desktop.pending)| && desktop.ends == old(desktop.ends)
        decreases |desktop.pending|
      {
        var p := desktop.Receive();
        if p == [] || !GoodSize(p[0], COMMAND_END) {
          return Thrown;
        }
        if p[0][4] == SB_COMMAND_DB_DONE {
          return End;
        }
        if p[0][4] == SB_COMMAND_DB_DATA {
          return if GoodSize(p[0], RECORD_OFFSET) then Got(Meta(dbName, p[0])) else Thrown;
        }
      }
    }
  }

  /** One fetch takes the next record of `packets` and leaves `rest`. */
  ghost predicate Delivers(name: string, packets: seq<Packet>, r: Fetched, rest: seq<Packet>) {
    ReadPackets(name, packets) ==
      match r
      case Got(data) => Before(data.(dbName := name), ReadPackets(name, rest))
      case End => Reading([], true)
      case Thrown => Reading([], false)
  }

  lemma DeliveredFirst(name: string, packets: seq<Packet>, r: Fetched, rest: seq<Packet>, more: Reading)
    requires Delivers(name, packets, r, rest)
    ensures Then(ReadPackets(name, packets), more) ==
              match r
              case Got(data) => Before(data.(dbName := name), Then(ReadPackets(name, rest), more))
              case End => more
              case Thrown => Reading([], false)
  {
    hide ReadPackets;
  }

  method GetDBName(list: DbList, number: nat) returns (found: bool, name: string)
  {
    found, name := false, "";
    for k := 0 to |list| {
      if list[k].number == number {
        return true, list[k].name;
      }
    }
  }

  class DeviceBuilder {
    const desktop: Desktop
    const loader: DBLoader
    var dbIds: seq<Label>
    var current: nat
    var started: bool

    ghost predicate Valid()
      reads this, loader
    {
      && loader.desktop == desktop
      && (started ==> current <= |dbIds|)
      && (!started ==> current == 0 && !loader.loading)
      && (loader.loading ==> current < |dbIds|)
    }

    constructor (desktop: Desktop)
      ensures Valid() && fresh(loader) && this.desktop == desktop && dbIds == [] && !started
    {
      this.desktop := desktop;
      loader := new DBLoader(desktop);
      dbIds, current, started := [], 0, false;
    }

    /** False if the device has no database of that name. */
    method Add(dbName: string) returns (ok: bool)
      requires Valid() && !started
      modifies `dbIds
      ensures Valid() && ok == Lists(desktop.dbdb, dbName)
      ensures dbIds == old(dbIds) + if ok then [Label(Number(desktop.dbdb, dbName), dbName)] else []
    {
      var number;
      ok, number := GetDBNumber(desktop.dbdb, dbName);
      if ok {
        dbIds := dbIds + [Label(number, dbName)];
      }
    }

    /** Everything a reader can still get. */
    ghost function Remaining(): Reading
      requires Valid()
      reads this, loader, desktop
    {
      if !started then ReadAll(desktop, dbIds)
      else if loader.loading then
        Then(ReadPackets(dbIds[current].name, desktop.pending), ReadAll(desktop, dbIds[current + 1..]))
      else if current == |dbIds| then Reading([], true)
      else ReadAll(desktop, dbIds[current + 1..])
    }

    /** How many databases still have an end to be received. */
    ghost function EndsLeft(): nat
      requires Valid()
      reads this, loader
    {
      if !started then |dbIds|
      else if current == |dbIds| then 0
      else |dbIds| - current - if loader.loading then 0 else 1
    }

    /** Databases not finished, counted twice to tell the start of one from its end. */
    ghost function Rank(): nat
      requires Valid()
      reads this, loader
    {
      if !started then 2 * |dbIds| + 2 else 2 * (|dbIds| - current) + if loader.loading then 1 else 0
    }

    ghost predicate Named()
      reads this
    {
      forall k :: 0 <= k < |dbIds| ==> dbIds[k].name != ""
    }

    predicate EndOfFile()
      reads this
    {
      current == |dbIds|
    }

    method FetchRecord() returns (r: Fetched)
      requires Valid()
      modifies this`current, this`started, loader, desktop`pending, desktop`ends
      ensures r.Thrown? || Valid()
      ensures r.Thrown? ==> !old(Remaining()).ok && old(Remaining()).records == []
      ensures r.End? ==> Remaining() == old(Remaining())
      ensures r.Got? ==> old(Remaining()) == Before(r.data, Remaining())
      ensures r.Got? ==> loader.loading && current < |dbIds| && r.data.Sound() && r.data.dbName == dbIds[current].name
      ensures !r.Thrown? ==> desktop.ends + EndsLeft() == old(desktop.ends) + old(EndsLeft())
      ensures !r.Thrown? && !old(EndOfFile()) ==>
                Rank() < old(Rank()) || (r.Got? && Rank() == old(Rank()) && |desktop.pending| < |old(desktop.pending)|)
    {
      hide ReadPackets, ReadAll, Then, Delivers;
      if |dbIds| == 0 {
        return End;
      }
      ghost var packets := desktop.pending;
      if !started {
        current := 0;
        assert dbIds[0..] == dbIds;
        ReadAllFrom(desktop, dbIds, current);
        packets := desktop.Answer(dbIds[current].id);
        r := loader.StartDBLoad(dbIds[current].id, dbIds[current].name);
        started := true;
      } else if loader.loading {
        r := loader.GetNextRecord(dbIds[current].name, dbIds[current].name);
      } else {
        if EndOfFile() {
          return End;
        }
        current := current + 1;
        ReadAllFrom(desktop, dbIds, current);
        if EndOfFile() {
          return End;
        }
        packets := desktop.Answer(dbIds[current].id);
        r := loader.StartDBLoad(dbIds[current].id, dbIds[current].name);
      }
      DeliveredFirst(dbIds[current].name, packets, r, desktop.pending, ReadAll(desktop, dbIds[current + 1..]));
      if r.Got? {
        r := Got(r.data.(dbName := dbIds[current].name));
      }
    }
  }
}
