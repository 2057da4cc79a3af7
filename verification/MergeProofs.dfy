/** What a merge makes of the device, for every stream and every choice of indices. */
module MergeProofs {
  import opened Bytes
  import opened RecordState
  import opened RecordStateProofs
  import opened MergeModel

  // -------------------------------------------------- one database, one block

  lemma PlusOne(base: Db, added: seq<Entry>, db: Db, i: nat, e: Entry)
    requires Plus(base, added, db) && i !in db
    ensures Plus(base, added + [e], db[i := e])
  {
    assert (added + [e])[..|added|] == added;
    assert db[i := e] - {i} == db;
    assert LastAt(base, added + [e], db[i := e], i);
  }

  /** What was in the base is still there; overwriting it commutes with the additions. */
  lemma {:induction false} PlusKeeps(base: Db, added: seq<Entry>, db: Db)
    requires Plus(base, added, db)
    ensures forall j :: j in base ==> j in db && db[j] == base[j]
    decreases |added|
  {
    if added != [] {
      var i :| i in db && LastAt(base, added, db, i);
      PlusKeeps(base, added[..|added| - 1], db - {i});
    }
  }

  lemma {:induction false} PlusOverwrite(base: Db, added: seq<Entry>, db: Db, j: nat, e: Entry)
    requires Plus(base, added, db) && j in base
    ensures Plus(base[j := e], added, db[j := e])
    decreases |added|
  {
    if added != [] {
      var i :| i in db && LastAt(base, added, db, i);
      PlusKeeps(base, added[..|added| - 1], db - {i});
      PlusOverwrite(base, added[..|added| - 1], db - {i}, j, e);
      assert db[j := e] - {i} == (db - {i})[j := e];
      assert LastAt(base[j := e], added, db[j := e], i);
    }
  }

  /** The parser is in the middle of database `n`, having written `rs` since it started. */
  ghost predicate InBlock(mode: Mode, s: Merge, name: string, n: nat, before: Db, rs: seq<Record>, marks: seq<nat>) {
    && s.name == name && s.dbid == n && n in s.dbs
    && (mode.IndividualOverwrite? || mode.AddButNoOverwrite? || mode.AddWithNewId? ==> s.table == IdsOf(before))
    && (mode.AddWithNewId? ==> s.last == Wrap(Mark(1, marks, |marks|)))
    && Outcome(mode, before, rs, marks, s.dbs[n])
  }

  ghost predicate OnlyAt(a: Device, b: Device, n: nat) {
    a.Keys == b.Keys && forall m :: m in a && m != n ==> b[m] == a[m]
  }

  lemma BlockStarts(list: DbList, mode: Mode, s: Merge, name: string)
    requires Lists(list, name) && Number(list, name) in s.dbs
    ensures var n := Number(list, name); var t := Started(list, mode, s, name);
            InBlock(mode, t, name, n, s.dbs[n], [], []) && OnlyAt(s.dbs, t.dbs, n)
  {
    var n := Number(list, name);
    assert Entries([]) == [] && Renamed([], NewIds([])) == [];
    assert Plus(s.dbs[n], [], s.dbs[n]) && Plus(map[], [], map[]);
    assert Generated(UsedIds(IdsOf(s.dbs[n])), 1, []);
  }

  lemma AddedTo(s: Merge, e: Entry, dbs: Device, base: Db, added: seq<Entry>)
    requires Adds(s, e, dbs) && Plus(base, added, s.dbs[s.dbid])
    ensures s.dbid in dbs && Plus(base, added + [e], dbs[s.dbid]) && OnlyAt(s.dbs, dbs, s.dbid)
  {
    var i :| i !in s.dbs[s.dbid] && dbs == s.dbs[s.dbid := s.dbs[s.dbid][i := e]];
    PlusOne(base, added, s.dbs[s.dbid], i, e);
  }

  lemma OverwriteStep(s: Merge, r: Record, t: Merge, name: string, n: nat, before: Db, rs: seq<Record>)
    requires InBlock(IndividualOverwrite, s, name, n, before, rs, [])
    requires Writes(IndividualOverwrite, s, r, t)
    ensures InBlock(IndividualOverwrite, t, name, n, before, rs + [r], []) && OnlyAt(s.dbs, t.dbs, n)
  {
    var table := IdsOf(before);
    var base, added := Overwritten(before, table, rs), Unlisted(table, rs);
    assert (rs + [r])[..|rs|] == rs;
    if HasId(table, r.id) {
      var i := IndexOfId(table, r.id);
      assert Unlisted(table, rs + [r]) == added;
      PlusKeeps(base, added, s.dbs[n]);
      PlusOverwrite(base, added, s.dbs[n], i, base[i].(payload := r.payload));
    } else {
      assert Overwritten(before, table, rs + [r]) == base;
      AddedTo(s, AsEntry(r), t.dbs, base, added);
    }
  }

  lemma AddStep(mode: Mode, s: Merge, r: Record, t: Merge, name: string, n: nat, before: Db, rs: seq<Record>)
    requires mode.EraseAllWriteAll? || mode.AddButNoOverwrite? || mode.DropRecord?
    requires InBlock(mode, s, name, n, before, rs, []) && Writes(mode, s, r, t)
    ensures InBlock(mode, t, name, n, before, rs + [r], []) && OnlyAt(s.dbs, t.dbs, n)
  {
    var table := IdsOf(before);
    assert (rs + [r])[..|rs|] == rs;
    match mode
    case EraseAllWriteAll =>
      AddedTo(s, AsEntry(r), t.dbs, map[], Entries(rs));
      assert Entries(rs + [r]) == Entries(rs) + [AsEntry(r)];
    case AddButNoOverwrite =>
      if HasId(table, r.id) {
        assert Unlisted(table, rs + [r]) == Unlisted(table, rs);
      } else {
        AddedTo(s, AsEntry(r), t.dbs, before, Unlisted(table, rs));
      }
    case DropRecord =>
  }

  lemma RenameStep(s: Merge, r: Record, t: Merge, name: string, n: nat, before: Db, rs: seq<Record>, marks: seq<nat>)
    returns (more: seq<nat>)
    requires InBlock(AddWithNewId, s, name, n, before, rs, marks) && Writes(AddWithNewId, s, r, t)
    ensures InBlock(AddWithNewId, t, name, n, before, rs + [r], more) && OnlyAt(s.dbs, t.dbs, n)
  {
    hide Wrap, FirstFree, Generated, Plus, Adds;
    var used := UsedIds(IdsOf(before));
    var mark :| Renames(s, r, t, mark);
    var from := Mark(1, marks, |marks|);
    FirstFreeShifts(used, from, mark);
    var next := from - Wrap(from) + mark;
    more := marks + [next];
    GeneratedSnoc(used, 1, marks, next);
    AddedTo(s, Entry(r.recType, Wrap(mark), r.payload), t.dbs, before, Renamed(rs, NewIds(marks)));
    assert Renamed(rs + [r], NewIds(more)) == Renamed(rs, NewIds(marks)) + [Entry(r.recType, Wrap(mark), r.payload)];
  }

  lemma GeneratedSnoc(used: set<nat>, from: nat, marks: seq<nat>, next: nat)
    requires Generated(used, from, marks) && FirstFree(used, Mark(from, marks, |marks|), next)
    ensures Generated(used, from, marks + [next])
  {
    hide FirstFree;
    var more := marks + [next];
    forall k | 0 <= k < |more|
      ensures FirstFree(used, Mark(from, more, k), more[k])
    {
      if k < |marks| {
        assert FirstFree(used, Mark(from, marks, k), marks[k]);
      }
    }
  }

  lemma BlockStep(mode: Mode, s: Merge, r: Record, t: Merge, name: string, n: nat, before: Db, rs: seq<Record>,
                  marks: seq<nat>)
    returns (more: seq<nat>)
    requires InBlock(mode, s, name, n, before, rs, marks) && Writes(mode, s, r, t)
    ensures InBlock(mode, t, name, n, before, rs + [r], more) && OnlyAt(s.dbs, t.dbs, n)
  {
    if mode.AddWithNewId? {
      more := RenameStep(s, r, t, name, n, before, rs, marks);
    } else {
      more := [];
      if mode.IndividualOverwrite? {
        OverwriteStep(s, r, t, name, n, before, rs);
      } else {
        AddStep(mode, s, r, t, name, n, before, rs);
      }
    }
  }
}
