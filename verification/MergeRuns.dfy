/** Merging whole streams: databases in blocks, and what holds for any stream at all. */
module MergeRuns {
  import opened Bytes
  import opened RecordState
  import opened RecordStateProofs
  import opened MergeModel
  import opened MergeProofs

  /** The records of one database, one after the other. */
  datatype Block = Block(name: string, records: seq<Record>)

  predicate GoodBlock(b: Block) {
    b.name != "" && b.records != [] && forall r :: r in b.records ==> r.name == b.name
  }

  /** Each database once, and no two of their names listed under one number. */
  ghost predicate Apart(list: DbList, blocks: seq<Block>) {
    forall i, j :: 0 <= i < j < |blocks| ==>
      && blocks[i].name != blocks[j].name
      && (Lists(list, blocks[i].name) && Lists(list, blocks[j].name) ==>
            Number(list, blocks[i].name) != Number(list, blocks[j].name))
  }

  function Stream(blocks: seq<Block>): seq<Record> {
    if blocks == [] then [] else Stream(blocks[..|blocks| - 1]) + blocks[|blocks| - 1].records
  }

  lemma StreamSnoc(blocks: seq<Block>, b: Block)
    ensures Stream(blocks + [b]) == Stream(blocks) + b.records
  {
    assert (blocks + [b])[..|blocks|] == blocks;
  }

  lemma NoStream()
    ensures Stream([]) == []
  {
  }

  predicate AllGood(blocks: seq<Block>) {
    forall k :: 0 <= k < |blocks| ==> GoodBlock(blocks[k])
  }

  lemma {:induction false} RunSplit(list: DbList, mode: Mode, s: Merge, a: seq<Record>, b: seq<Record>, t: Merge)
    returns (mid: Merge)
    requires Run(list, mode, s, a + b, t)
    ensures Run(list, mode, s, a, mid) && Run(list, mode, mid, b, t)
    decreases |b|
  {
    hide Next;
    if b == [] {
      assert a + b == a;
      mid := t;
    } else {
      var init, r := b[..|b| - 1], b[|b| - 1];
      assert (a + b)[..|a + b| - 1] == a + init;
      var m :| Run(list, mode, s, a + init, m) && Next(list, mode, m, r, t);
      mid := RunSplit(list, mode, s, a, init, m);
      assert RunThen(list, mode, mid, init, r, t);
    }
  }

  lemma {:induction false} BlockRun(list: DbList, mode: Mode, s: Merge, name: string, rs: seq<Record>, t: Merge)
    returns (marks: seq<nat>)
    requires Lists(list, name) && Number(list, name) in s.dbs && s.name != name
    requires rs != [] && forall r :: r in rs ==> r.name == name
    requires Run(list, mode, s, rs, t)
    ensures var n := Number(list, name);
            InBlock(mode, t, name, n, s.dbs[n], rs, marks) && OnlyAt(s.dbs, t.dbs, n)
    decreases |rs|
  {
    hide Writes, Started, Outcome, Number;
    var init, r := rs[..|rs| - 1], rs[|rs| - 1];
    var mid :| Run(list, mode, s, init, mid) && Next(list, mode, mid, r, t);
    var n := Number(list, name);
    if init == [] {
      BlockStarts(list, mode, s, name);
      marks := BlockStep(mode, Started(list, mode, s, name), r, t, name, n, s.dbs[n], [], []);
      assert [] + [r] == rs;
    } else {
      marks := BlockRun(list, mode, s, name, init, mid);
      marks := BlockStep(mode, mid, r, t, name, n, s.dbs[n], init, marks);
      assert init + [r] == rs;
    }
  }

  /** Records of a database that the device does not have are dropped. */
  lemma {:induction false} UnknownRun(list: DbList, mode: Mode, s: Merge, name: string, rs: seq<Record>, t: Merge)
    requires !Lists(list, name) && s.name != name && name != ""
    requires rs != [] && forall r :: r in rs ==> r.name == name
    requires Run(list, mode, s, rs, t)
    ensures t == Merge(s.dbs, "", 0, map[], 1)
    decreases |rs|
  {
    hide Writes, Started;
    var init, r := rs[..|rs| - 1], rs[|rs| - 1];
    var mid :| Run(list, mode, s, init, mid) && Next(list, mode, mid, r, t);
    if init != [] {
      UnknownRun(list, mode, s, name, init, mid);
    }
  }

  // --------------------------------------------------------------- all blocks

  ghost predicate Merged(mode: Mode, before: Db, rs: seq<Record>, after: Db) {
    exists marks :: Outcome(mode, before, rs, marks, after)
  }

  ghost predicate BlockMerged(list: DbList, mode: Mode, before: Device, b: Block, after: Device) {
    Lists(list, b.name) ==>
      var n := Number(list, b.name);
      n in before && n in after && Merged(mode, before[n], b.records, after[n])
  }

  ghost predicate Names(list: DbList, b: Block, n: nat) {
    Lists(list, b.name) && Number(list, b.name) == n
  }

  /** Every named database holds the outcome of its block, and no other one has changed. */
  ghost predicate AllMerged(list: DbList, mode: Mode, before: Device, blocks: seq<Block>, after: Device) {
    && after.Keys == before.Keys
    && (forall k :: 0 <= k < |blocks| ==> BlockMerged(list, mode, before, blocks[k], after))
    && (forall n :: n in before && (forall k :: 0 <= k < |blocks| ==> !Names(list, blocks[k], n)) ==>
          after[n] == before[n])
  }

  ghost predicate DeviceHas(list: DbList, dbs: Device) {
    forall k :: 0 <= k < |list| ==> list[k].number in dbs
  }

  /** A stream that brings each database in one piece is merged database by database. */
  lemma {:induction false} StreamMerges(list: DbList, mode: Mode, s: Merge, blocks: seq<Block>, t: Merge)
    requires DeviceHas(list, s.dbs) && Apart(list, blocks) && s.name == "" && AllGood(blocks)
    requires Run(list, mode, s, Stream(blocks), t)
    ensures AllMerged(list, mode, s.dbs, blocks, t.dbs)
    ensures t.name == "" || exists k :: 0 <= k < |blocks| && t.name == blocks[k].name
    decreases |blocks|
  {
    hide DeviceHas, Apart, GoodBlock, Stream, AllMerged;
    if blocks == [] {
      NoStream();
      NothingMerged(list, mode, s.dbs);
    } else {
      var init, b := blocks[..|blocks| - 1], blocks[|blocks| - 1];
      assert blocks == init + [b];
      StreamSnoc(init, b);
      ApartSnoc(list, init, b);
      assert GoodBlock(blocks[|init|]);
      var mid := RunSplit(list, mode, s, Stream(init), b.records, t);
      StreamMerges(list, mode, s, init, mid);
      BlockMerges(list, mode, s.dbs, init, mid, b, t);
    }
  }

  lemma ApartSnoc(list: DbList, init: seq<Block>, b: Block)
    requires Apart(list, init + [b])
    ensures Apart(list, init) && forall k :: 0 <= k < |init| ==> init[k].name != b.name
  {
    hide Lists, Number;
    var blocks := init + [b];
    forall i, j | 0 <= i < j < |init|
      ensures init[i].name != init[j].name
      ensures Lists(list, init[i].name) && Lists(list, init[j].name) ==>
                Number(list, init[i].name) != Number(list, init[j].name)
    {
      assert blocks[i] == init[i] && blocks[j] == init[j];
    }
    forall k | 0 <= k < |init| ensures init[k].name != b.name {
      assert blocks[k] == init[k] && blocks[|init|] == b;
    }
  }

  /** One more block for a device to which others have been merged. */
  lemma BlockMerges(list: DbList, mode: Mode, before: Device, init: seq<Block>, mid: Merge, b: Block, t: Merge)
    requires AllMerged(list, mode, before, init, mid.dbs) && DeviceHas(list, before)
    requires Apart(list, init + [b]) && GoodBlock(b)
    requires mid.name == "" || exists k :: 0 <= k < |init| && mid.name == init[k].name
    requires Run(list, mode, mid, b.records, t)
    ensures AllMerged(list, mode, before, init + [b], t.dbs) && (t.name == "" || t.name == b.name)
  {
    hide Outcome, Next, Writes, Started, Number, Lists, AllMerged, OnlyAt, Apart;
    ApartSnoc(list, init, b);
    if Lists(list, b.name) {
      NumberIsListed(list, b.name);
      SameKeys(list, mode, before, init, mid.dbs);
      var marks := BlockRun(list, mode, mid, b.name, b.records, t);
      MergedNext(list, mode, before, init, mid.dbs, b, t.dbs);
    } else {
      UnknownRun(list, mode, mid, b.name, b.records, t);
      DroppedNext(list, mode, before, init, mid.dbs, b);
    }
  }

  lemma NothingMerged(list: DbList, mode: Mode, dbs: Device)
    ensures AllMerged(list, mode, dbs, [], dbs)
  {
  }

  lemma SameKeys(list: DbList, mode: Mode, before: Device, blocks: seq<Block>, after: Device)
    requires AllMerged(list, mode, before, blocks, after)
    ensures after.Keys == before.Keys
  {
  }

  lemma DroppedNext(list: DbList, mode: Mode, before: Device, init: seq<Block>, after: Device, b: Block)
    requires AllMerged(list, mode, before, init, after) && !Lists(list, b.name)
    ensures AllMerged(list, mode, before, init + [b], after)
  {
    hide Merged, Number, Lists;
    var blocks := init + [b];
    forall m | m in before && (forall k :: 0 <= k < |blocks| ==> !Names(list, blocks[k], m))
      ensures after[m] == before[m]
    {
      forall k | 0 <= k < |init|
        ensures !Names(list, init[k], m)
      {
        assert !Names(list, blocks[k], m);
      }
    }
  }

  lemma NumberIsListed(list: DbList, name: string)
    requires Lists(list, name)
    ensures exists k :: 0 <= k < |list| && list[k].number == Number(list, name)
  {
  }

  lemma MergedNext(list: DbList, mode: Mode, before: Device, init: seq<Block>, middle: Device, b: Block, after: Device)
    requires AllMerged(list, mode, before, init, middle) && Apart(list, init + [b])
    requires Lists(list, b.name) && Number(list, b.name) in before
    requires var n := Number(list, b.name);
             OnlyAt(middle, after, n) && Merged(mode, middle[n], b.records, after[n])
    ensures AllMerged(list, mode, before, init + [b], after)
  {
    hide Merged, Number, Lists;
    var blocks, n := init + [b], Number(list, b.name);
    forall k | 0 <= k < |init|
      ensures !Names(list, init[k], n)
    {
      assert blocks[k] == init[k] && blocks[|init|] == b;
    }
    assert middle[n] == before[n];
    forall k | 0 <= k < |blocks|
      ensures BlockMerged(list, mode, before, blocks[k], after)
    {
      if k < |init| {
        assert BlockMerged(list, mode, before, init[k], middle) && !Names(list, init[k], n);
      }
    }
    forall m | m in before && (forall k :: 0 <= k < |blocks| ==> !Names(list, blocks[k], m))
      ensures after[m] == before[m]
    {
      assert !Names(list, blocks[|init|], m);
      forall k | 0 <= k < |init|
        ensures !Names(list, init[k], m)
      {
        assert !Names(list, blocks[k], m);
      }
    }
  }

  // --------------------------------------------------------------- any stream

  /** The current database is the one the current name stands for. */
  ghost predicate Current(list: DbList, s: Merge) {
    s.name == "" || (Lists(list, s.name) && s.dbid == Number(list, s.name))
  }

  /** Streams in any order and with any repetition: a database that no record names is left alone. */
  lemma {:induction false} UnnamedUntouched(list: DbList, mode: Mode, s: Merge, stream: seq<Record>, t: Merge, n: nat)
    requires Current(list, s) && n in s.dbs && Run(list, mode, s, stream, t)
    requires forall r :: r in stream ==> r.name != "" && (Lists(list, r.name) ==> Number(list, r.name) != n)
    ensures Current(list, t) && n in t.dbs && t.dbs[n] == s.dbs[n]
    decreases |stream|
  {
    hide Number, Lists;
    if stream != [] {
      var init, r := stream[..|stream| - 1], stream[|stream| - 1];
      var mid :| Run(list, mode, s, init, mid) && Next(list, mode, mid, r, t);
      UnnamedUntouched(list, mode, s, init, mid, n);
      var from := if r.name != mid.name && Lists(list, r.name) && Number(list, r.name) in mid.dbs
                  then Started(list, mode, mid, r.name) else mid;
      WritesTouchOne(mode, from, r, t);
    }
  }

  lemma WritesTouchOne(mode: Mode, s: Merge, r: Record, t: Merge)
    ensures Writes(mode, s, r, t) ==> OnlyAt(s.dbs, t.dbs, s.dbid)
  {
  }

  /** `b` still has every record of `a`, at its index; the payload too if `intact`. */
  ghost predicate KeepsAll(a: Device, b: Device, intact: bool) {
    forall n :: n in a ==> n in b && KeepsDb(a[n], b[n], intact)
  }

  ghost predicate KeepsDb(a: Db, b: Db, intact: bool) {
    forall i :: i in a ==> i in b && b[i] == if intact then a[i] else a[i].(payload := b[i].payload)
  }

  lemma WritesKeep(mode: Mode, s: Merge, r: Record, t: Merge)
    requires Writes(mode, s, r, t)
    ensures KeepsAll(s.dbs, t.dbs, !mode.IndividualOverwrite?)
  {
  }

  /** Unless the mode erases, no stream removes a record or changes its id or type; and unless the
   * mode overwrites, none changes a payload. */
  lemma {:induction false} NothingLost(list: DbList, mode: Mode, s: Merge, stream: seq<Record>, t: Merge)
    requires !mode.EraseAllWriteAll? && Run(list, mode, s, stream, t)
    ensures KeepsAll(s.dbs, t.dbs, !mode.IndividualOverwrite?)
    decreases |stream|
  {
    hide Writes, Lists, Number;
    if stream != [] {
      var init, r := stream[..|stream| - 1], stream[|stream| - 1];
      var mid :| Run(list, mode, s, init, mid) && Next(list, mode, mid, r, t);
      NothingLost(list, mode, s, init, mid);
      if r.name == mid.name {
        WritesKeep(mode, mid, r, t);
      } else if Lists(list, r.name) {
        WritesKeep(mode, Started(list, mode, mid, r.name), r, t);
      }
    }
  }
}
