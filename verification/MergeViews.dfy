/** The merge as a map operation: what happens to a database in which every id occurs once. */
module MergeViews {
  import opened Bytes
  import opened RecordState
  import opened RecordStateProofs
  import opened Distinctness
  import opened MergeModel
  import opened MergeProofs
  import opened MergeRuns

  type View = map<nat, Entry>

  ghost predicate UniqueIds(db: Db) {
    forall i, j :: i in db && j in db && db[i].id == db[j].id ==> i == j
  }

  ghost predicate Holds(db: Db, id: nat) {
    exists i :: i in db && db[i].id == id
  }

  /** The database has one record for each id of `v` and no others. */
  ghost predicate Shows(db: Db, v: View) {
    && UniqueIds(db)
    && (forall i :: i in db ==> db[i].id in v && v[db[i].id] == db[i])
    && (forall id :: id in v ==> Holds(db, id))
  }

  /** Later entries win. */
  function EntryMap(es: seq<Entry>): View {
    if es == [] then map[] else EntryMap(es[..|es| - 1])[es[|es| - 1].id := es[|es| - 1]]
  }

  predicate DistinctIds(es: seq<Entry>) {
    forall i, j :: 0 <= i < j < |es| ==> es[i].id != es[j].id
  }

  lemma ListedExactly(db: Db, v: View, id: nat)
    requires Shows(db, v)
    ensures HasId(IdsOf(db), id) <==> id in v
  {
    if id in v {
      var i :| i in db && db[i].id == id;
      assert i in IdsOf(db) && IdsOf(db)[i] == id;
    }
  }

  lemma ShowsMore(db: Db, v: View, i: nat, e: Entry)
    requires Shows(db, v) && i !in db && e.id !in v
    ensures Shows(db[i := e], v[e.id := e])
  {
    var more, w := db[i := e], v[e.id := e];
    forall id | id in w
      ensures Holds(more, id)
    {
      if id == e.id {
        assert i in more && more[i].id == id;
      } else {
        var j :| j in db && db[j].id == id;
        assert j in more && more[j].id == id;
      }
    }
  }

  lemma ShowsPayload(db: Db, v: View, i: nat, e: Entry)
    requires Shows(db, v) && i in db && e.id == db[i].id
    ensures Shows(db[i := e], v[e.id := e])
  {
    var more := db[i := e];
    forall id | id in v
      ensures Holds(more, id)
    {
      var j :| j in db && db[j].id == id;
      assert j in more && more[j].id == id;
    }
  }

  /** Any database without repeated ids is shown by some map. */
  lemma {:induction false} ViewExists(db: Db)
    returns (v: View)
    requires UniqueIds(db)
    ensures Shows(db, v)
    decreases |db|
  {
    if db == map[] {
      v := map[];
    } else {
      var i :| i in db;
      var rest := db - {i};
      assert |rest| < |db| by {
        assert rest.Keys == db.Keys - {i};
      }
      var w := ViewExists(rest);
      assert db[i].id !in w;
      ShowsMore(rest, w, i, db[i]);
      assert rest[i := db[i]] == db;
      v := w[db[i].id := db[i]];
    }
  }

  lemma {:induction false} EntryMapKeys(es: seq<Entry>, id: nat)
    ensures id in EntryMap(es) <==> exists k :: 0 <= k < |es| && es[k].id == id
  {
    if es != [] {
      var init := es[..|es| - 1];
      EntryMapKeys(init, id);
      if id in EntryMap(init) {
        var k :| 0 <= k < |init| && init[k].id == id;
        assert es[k].id == id;
      } else if exists k :: 0 <= k < |es| && es[k].id == id {
        var k :| 0 <= k < |es| && es[k].id == id;
        assert k < |init| ==> init[k].id == id;
      }
    }
  }

  /** Additions with ids of their own only add to the map. */
  lemma {:induction false} PlusShows(base: Db, v: View, added: seq<Entry>, db: Db)
    requires Plus(base, added, db) && Shows(base, v) && DistinctIds(added)
    requires forall k :: 0 <= k < |added| ==> added[k].id !in v
    ensures Shows(db, v + EntryMap(added))
    decreases |added|
  {
    hide Shows;
    if added == [] {
      assert v + map[] == v;
    } else {
      var init, last := added[..|added| - 1], added[|added| - 1];
      var i :| i in db && LastAt(base, added, db, i);
      PlusShows(base, v, init, db - {i});
      EntryMapKeys(init, last.id);
      ShowsMore(db - {i}, v + EntryMap(init), i, last);
      assert (db - {i})[i := last] == db;
      assert (v + EntryMap(init))[last.id := last] == v + EntryMap(added);
    }
  }

  // ------------------------------------------------------- the four policies

  predicate DistinctRecords(rs: seq<Record>) {
    forall i, j :: 0 <= i < j < |rs| ==> rs[i].id != rs[j].id
  }

  function News(rs: seq<Record>): View {
    EntryMap(Entries(rs))
  }

  lemma NewsSnoc(rs: seq<Record>)
    requires rs != []
    ensures var r := rs[|rs| - 1]; News(rs) == News(rs[..|rs| - 1])[r.id := AsEntry(r)]
  {
    assert Entries(rs)[..|rs| - 1] == Entries(rs[..|rs| - 1]);
  }

  lemma {:induction false} UnlistedIds(table: IdMap, rs: seq<Record>)
    requires DistinctRecords(rs)
    ensures var some := Unlisted(table, rs);
            && DistinctIds(some)
            && forall k :: 0 <= k < |some| ==>
                 !HasId(table, some[k].id) && exists i :: 0 <= i < |rs| && rs[i].id == some[k].id
  {
    hide HasId;
    if rs != [] {
      var init, r := rs[..|rs| - 1], rs[|rs| - 1];
      UnlistedIds(table, init);
      var some := Unlisted(table, init);
      forall k | 0 <= k < |some|
        ensures some[k].id != r.id && exists i :: 0 <= i < |rs| && rs[i].id == some[k].id
      {
        var i :| 0 <= i < |init| && init[i].id == some[k].id;
        assert rs[i].id == some[k].id;
      }
      assert rs[|rs| - 1].id == r.id;
    }
  }

  /** The unlisted records are the news about ids that were not there. */
  lemma {:induction false} UnlistedNews(before: Db, v: View, rs: seq<Record>)
    requires Shows(before, v)
    ensures EntryMap(Unlisted(IdsOf(before), rs)) == News(rs) - v.Keys
  {
    hide HasId, Shows, EntryMap;
    var table := IdsOf(before);
    if rs == [] {
      assert Entries(rs) == [];
      NoEntries();
    } else {
      var init, r := rs[..|rs| - 1], rs[|rs| - 1];
      UnlistedNews(before, v, init);
      NewsSnoc(rs);
      ListedExactly(before, v, r.id);
      if r.id in v {
        assert Unlisted(table, rs) == Unlisted(table, init);
        assert News(rs) - v.Keys == News(init) - v.Keys;
      } else {
        EntryMapSnoc(Unlisted(table, init), AsEntry(r));
        assert News(rs) - v.Keys == (News(init) - v.Keys)[r.id := AsEntry(r)];
      }
    }
  }

  lemma NoEntries()
    ensures EntryMap([]) == map[]
  {
  }

  lemma EntryMapSnoc(es: seq<Entry>, e: Entry)
    ensures EntryMap(es + [e]) == EntryMap(es)[e.id := e]
  {
    assert (es + [e])[..|es|] == es;
  }

  /** `v` with the payloads of the news; the device keeps type and id of an overwritten record. */
  function WithPayloads(v: View, news: View): View {
    map id | id in v :: if id in news then v[id].(payload := news[id].payload) else v[id]
  }

  lemma {:induction false} OverwrittenShows(before: Db, v: View, rs: seq<Record>)
    requires Shows(before, v)
    ensures var o := Overwritten(before, IdsOf(before), rs);
            IdsOf(o) == IdsOf(before) && Shows(o, WithPayloads(v, News(rs)))
  {
    hide HasId, Shows;
    var table := IdsOf(before);
    if rs == [] {
      assert Entries(rs) == [];
      assert WithPayloads(v, map[]) == v;
    } else {
      var init, r := rs[..|rs| - 1], rs[|rs| - 1];
      OverwrittenShows(before, v, init);
      NewsSnoc(rs);
      ListedExactly(before, v, r.id);
      var o, w := Overwritten(before, table, init), WithPayloads(v, News(init));
      if HasId(table, r.id) {
        var i := IndexOfId(table, r.id);
        SameIndex(o, w, i, r.id);
        ShowsPayload(o, w, i, o[i].(payload := r.payload));
        assert WithPayloads(v, News(rs)) == w[r.id := o[i].(payload := r.payload)];
      } else {
        assert WithPayloads(v, News(rs)) == w;
      }
    }
  }

  lemma SameIndex(o: Db, w: View, i: nat, id: nat)
    requires i in IdsOf(o) && IdsOf(o)[i] == id && Shows(o, w)
    ensures i in o && o[i].id == id && id in w && w[id] == o[i]
  {
  }

  /** ERASE_ALL_WRITE_ALL: the stream's records and nothing else. */
  lemma EraseAllMeaning(before: Db, rs: seq<Record>, after: Db)
    requires Merged(EraseAllWriteAll, before, rs, after) && DistinctRecords(rs)
    ensures Shows(after, News(rs))
  {
    hide EntryMap, Plus;
    var empty: Db := map[];
    PlusShows(empty, map[], Entries(rs), after);
    assert map[] + News(rs) == News(rs);
  }

  /** INDIVIDUAL_OVERWRITE: the old records overridden by the stream. */
  lemma OverwriteMeaning(before: Db, v: View, rs: seq<Record>, after: Db)
    requires Merged(IndividualOverwrite, before, rs, after) && Shows(before, v) && DistinctRecords(rs)
    ensures Shows(after, News(rs) + WithPayloads(v, News(rs)))
  {
    hide EntryMap, Plus, Shows, HasId, Overwritten, Unlisted;
    var table := IdsOf(before);
    var o, w, some := Overwritten(before, table, rs), WithPayloads(v, News(rs)), Unlisted(table, rs);
    OverwrittenShows(before, v, rs);
    UnlistedIds(table, rs);
    UnlistedNews(before, v, rs);
    forall k | 0 <= k < |some|
      ensures some[k].id !in w
    {
      ListedExactly(before, v, some[k].id);
    }
    PlusShows(o, w, some, after);
    assert w + (News(rs) - v.Keys) == News(rs) + w;
  }

  lemma ShowsOne(db: Db, v: View, w: View)
    requires Shows(db, v) && Shows(db, w)
    ensures v == w
  {
    forall id ensures id in v <==> id in w {
      if id in v || id in w {
        var i :| i in db && db[i].id == id;
      }
    }
    forall id | id in v ensures v[id] == w[id] {
      var i :| i in db && db[i].id == id;
    }
  }

  lemma {:induction false} NewsIds(rs: seq<Record>, id: nat)
    requires id in News(rs)
    ensures News(rs)[id].id == id
  {
    hide EntryMap;
    if rs == [] {
      assert Entries(rs) == [];
      NoEntries();
    } else {
      NewsSnoc(rs);
      if id != rs[|rs| - 1].id {
        NewsIds(rs[..|rs| - 1], id);
      }
    }
  }

  /** An overwrite replaces the old records by the stream's, type and all, exactly if every record that was
   * overwritten had the stream's type: the type is not sent. */
  lemma OverwriteReplacesExactly(before: Db, v: View, rs: seq<Record>, after: Db)
    requires Merged(IndividualOverwrite, before, rs, after) && Shows(before, v) && DistinctRecords(rs)
    ensures Shows(after, v + News(rs))
       <==> forall id :: id in v && id in News(rs) ==> v[id].recType == News(rs)[id].recType
  {
    hide News, Merged, Holds, UniqueIds;
    var n := News(rs);
    var shown := n + WithPayloads(v, n);
    OverwriteMeaning(before, v, rs, after);
    forall id | id in v && id in n
      ensures shown[id].recType == v[id].recType && (v + n)[id] == n[id]
      ensures shown[id] == n[id] <==> v[id].recType == n[id].recType
    {
      NewsIds(rs, id);
      ViewIds(before, v, id);
    }
    if forall id :: id in v && id in n ==> v[id].recType == n[id].recType {
      assert shown == v + n;
    }
    if Shows(after, v + n) {
      ShowsOne(after, shown, v + n);
    }
  }

  lemma ViewIds(db: Db, v: View, id: nat)
    requires Shows(db, v) && id in v
    ensures v[id].id == id
  {
    var i :| i in db && db[i].id == id;
  }

  /** ADD_BUT_NO_OVERWRITE: the stream overridden by the old records. */
  lemma NoOverwriteMeaning(before: Db, v: View, rs: seq<Record>, after: Db)
    requires Merged(AddButNoOverwrite, before, rs, after) && Shows(before, v) && DistinctRecords(rs)
    ensures Shows(after, News(rs) + v)
  {
    hide EntryMap, Plus, Shows, HasId, Unlisted;
    var table := IdsOf(before);
    var some := Unlisted(table, rs);
    UnlistedIds(table, rs);
    UnlistedNews(before, v, rs);
    forall k | 0 <= k < |some|
      ensures some[k].id !in v
    {
      ListedExactly(before, v, some[k].id);
    }
    PlusShows(before, v, some, after);
    assert v + (News(rs) - v.Keys) == News(rs) + v;
  }

  /** ADD_WITH_NEW_ID: every old record as it was and one new record for each of the stream's,
   * whatever ids the stream has. All ids are distinct as long as there are that many free ones. */
  lemma NewIdMeaning(before: Db, v: View, rs: seq<Record>, marks: seq<nat>, after: Db)
    requires Outcome(AddWithNewId, before, rs, marks, after) && Shows(before, v)
    requires forall i :: i in before ==> before[i].id < MAX32
    requires |UsedIds(IdsOf(before))| + |rs| <= MAX32
    ensures |marks| == |rs| && Distinct(NewIds(marks))
    ensures forall k :: 0 <= k < |rs| ==> NewIds(marks)[k] !in v
    ensures Shows(after, v + EntryMap(Renamed(rs, NewIds(marks))))
  {
    hide EntryMap, Plus, Shows, Generated, Wrap, HasId, NewIds;
    var used, ids := UsedIds(IdsOf(before)), NewIds(marks);
    NewIdsDistinctExactly(used, 1, marks);
    forall k | 0 <= k < |ids|
      ensures ids[k] !in v
    {
      NewIdIsFree(used, 1, marks, k);
      UsedMeansListed(IdsOf(before), ids[k]);
      ListedExactly(before, v, ids[k]);
    }
    PlusShows(before, v, Renamed(rs, ids), after);
  }

  lemma UsedMeansListed(ids: IdMap, id: nat)
    ensures id in UsedIds(ids) <==> HasId(ids, id)
  {
  }
}
