/** The record state table: which record sits at which index of a database. */
module RecordState {
  import opened Bytes

  const ENTRY_SIZE := 12
  const TABLE_HEADER := 12
  const DIRTY := 1

  datatype State = State(index: nat, recordId: nat, dirty: bool, recType: byte, unknown2: seq<byte>)

  type StateMap = map<nat, State>

  /** Ids and indices as they fit the wire. */
  ghost predicate InRange(m: StateMap) {
    forall i :: i in m ==> i < MAX16 && m[i].recordId < MAX32
  }

  // ------------------------------------------------------------------ parsing

  function EntryAt(b: seq<byte>): State
    requires |b| >= ENTRY_SIZE
  {
    State(FromLE16(b[1..3]), FromLE32(b[3..7]), b[7] % 2 == DIRTY, b[0], b[8..12])
  }

  /** Later entries for an index replace earlier ones; an incomplete entry ends the table. */
  function TableFrom(m: StateMap, b: seq<byte>): StateMap
    decreases |b|
  {
    if |b| < ENTRY_SIZE then m
    else TableFrom(m[EntryAt(b).index := EntryAt(b)], b[ENTRY_SIZE..])
  }

  // ------------------------------------------------------------------ new ids

  /** The entries behind the header of a table packet. */
  function Tabled(m: StateMap, b: seq<byte>): StateMap {
    if TABLE_HEADER >= |b| then m else TableFrom(m, b[TABLE_HEADER..])
  }

  function Wrap(n: nat): (r: nat)
    ensures r < MAX32
  {
    n % MAX32
  }

  /** What a merge needs of the table: the id at each index. */
  type IdMap = map<nat, nat>

  function Ids(m: StateMap): IdMap {
    map i | i in m :: m[i].recordId
  }

  function UsedIds(ids: IdMap): set<nat> {
    set i | i in ids :: ids[i]
  }

  /** Ids are counted round at 2^32; `from` and `upTo` number the steps without wrapping. All ids
   * strictly between are used, the one at `upTo` is not. */
  ghost predicate FirstFree(used: set<nat>, from: nat, upTo: nat) {
    from < upTo && Wrap(upTo) !in used && forall t :: from < t < upTo ==> Wrap(t) in used
  }

  ghost function Window(from: nat, upTo: nat): set<nat> {
    set t | from < t <= upTo :: Wrap(t)
  }

  /** Up to 2^32 consecutive ids are distinct. */
  lemma {:induction false} WindowSize(from: nat, upTo: nat)
    requires from <= upTo <= from + MAX32
    ensures |Window(from, upTo)| == upTo - from
    decreases upTo
  {
    if from == upTo {
      assert Window(from, upTo) == {};
    } else {
      WindowSize(from, upTo - 1);
      assert Window(from, upTo) == Window(from, upTo - 1) + {Wrap(upTo)};
      forall t | from < t <= upTo - 1
        ensures Wrap(t) != Wrap(upTo)
      {
        WrapDistinct(t, upTo);
      }
    }
  }

  lemma WrapDistinct(a: nat, b: nat)
    requires a < b < a + MAX32
    ensures Wrap(a) != Wrap(b)
  {
    var q, r := a / MAX32, b / MAX32;
    assert a == q * MAX32 + Wrap(a) && b == r * MAX32 + Wrap(b);
  }

  lemma SubsetSize<T>(a: set<T>, b: set<T>)
    requires a <= b
    ensures |a| <= |b|
  {
    if a != {} {
      var x :| x in a;
      SubsetSize(a - {x}, b - {x});
    }
  }

  lemma {:induction false} IndexSetSize(keys: set<nat>, n: nat)
    requires forall k :: k in keys ==> k < n
    ensures |keys| <= n
  {
    if n == 0 {
      assert keys == {};
    } else {
      IndexSetSize(keys - {n - 1}, n - 1);
      assert keys <= (keys - {n - 1}) + {n - 1};
      SubsetSize(keys, (keys - {n - 1}) + {n - 1});
    }
  }

  lemma {:induction false} UsedIdsSize(m: IdMap)
    ensures |UsedIds(m)| <= |m|
    decreases |m|
  {
    if m == map[] {
      assert UsedIds(m) == {};
    } else {
      var i :| i in m;
      var rest := m - {i};
      assert m.Keys == rest.Keys + {i};
      UsedIdsSize(rest);
      assert UsedIds(m) == UsedIds(rest) + {m[i]};
    }
  }

  /** If all ids in a stretch are used there are at least as many used ids. */
  lemma PassedIds(used: set<nat>, from: nat, upTo: nat)
    requires from <= upTo && forall t :: from < t <= upTo ==> Wrap(t) in used
    requires |used| < MAX32
    ensures upTo - from <= |used|
  {
    if upTo - from > |used| {
      WindowSize(from, from + |used| + 1);
      assert Window(from, from + |used| + 1) <= used;
      SubsetSize(Window(from, from + |used| + 1), used);
    }
  }

  predicate IsLeast(k: nat, s: set<nat>) {
    k in s && forall j :: j in s ==> k <= j
  }

  lemma {:induction false} LeastExists(s: set<nat>)
    requires s != {}
    ensures exists k :: k in s && IsLeast(k, s)
    decreases |s|
  {
    var k :| k in s;
    var rest := set j | j in s && j < k;
    if rest != {} {
      assert k !in rest && rest <= s - {k};
      SubsetSize(rest, s - {k});
      LeastExists(rest);
      var l :| l in rest && IsLeast(l, rest);
      forall j | j in s
        ensures l <= j
      {
        if j < k {
          assert j in rest;
        }
      }
      assert IsLeast(l, s);
    } else {
      forall j | j in s
        ensures k <= j
      {
        assert j !in rest;
      }
      assert IsLeast(k, s);
    }
  }

  class RecordStateTable {
    var stateMap: StateMap
    var lastNewRecordId: nat

    ghost predicate Valid()
      reads this
    {
      InRange(stateMap) && lastNewRecordId < MAX32
    }

    constructor ()
      ensures Valid() && stateMap == map[] && lastNewRecordId == 1
    {
      stateMap, lastNewRecordId := map[], 1;
    }

    method Clear()
      modifies this
      ensures Valid() && stateMap == map[] && lastNewRecordId == 1
    {
      stateMap, lastNewRecordId := map[], 1;
    }

    method ParseField(b: seq<byte>, begin: nat) returns (next: nat)
      requires Valid() && begin <= |b|
      modifies this
      ensures Valid() && next == begin + ENTRY_SIZE && lastNewRecordId == old(lastNewRecordId)
      ensures stateMap == if next > |b| then old(stateMap)
                          else old(stateMap)[EntryAt(b[begin..]).index := EntryAt(b[begin..])]
    {
      next := begin + ENTRY_SIZE;
      if next > |b| {
        return;
      }
      var e := EntryAt(b[begin..]);
      stateMap := stateMap[e.index := e];
    }

    method Parse(b: seq<byte>)
      requires Valid()
      modifies this
      ensures Valid() && lastNewRecordId == old(lastNewRecordId)
      ensures stateMap == Tabled(old(stateMap), b)
    {
      var begin := TABLE_HEADER;
      if begin >= |b| {
        return;
      }
      while begin < |b|
        invariant Valid() && lastNewRecordId == old(lastNewRecordId)
        invariant begin <= |b| ==> TableFrom(stateMap, b[begin..]) == TableFrom(old(stateMap), b[TABLE_HEADER..])
        invariant begin > |b| ==> stateMap == TableFrom(old(stateMap), b[TABLE_HEADER..])
        decreases |b| + ENTRY_SIZE - begin
      {
        assert begin + ENTRY_SIZE <= |b| ==> b[begin..][ENTRY_SIZE..] == b[begin + ENTRY_SIZE..];
        begin := ParseField(b, begin);
      }
    }

    /** The least index that holds the id: the map is walked in ascending order. */
    method GetIndex(recordId: nat) returns (found: bool, index: nat)
      ensures found <==> HasId(Ids(stateMap), recordId)
      ensures found ==> index == IndexOfId(Ids(stateMap), recordId)
    {
      found, index := false, 0;
      var rest := stateMap.Keys;
      while rest != {}
        invariant rest <= stateMap.Keys
        invariant forall i :: i in stateMap && i !in rest ==> stateMap[i].recordId != recordId
        invariant forall i, j :: i in stateMap && i !in rest && j in rest ==> i < j
        decreases |rest|
      {
        LeastExists(rest);
        var i :| i in rest && IsLeast(i, rest);
        if stateMap[i].recordId == recordId {
          IndexOfIdIsLeast(Ids(stateMap), recordId, i);
          return true, i;
        }
        rest := rest - {i};
      }
    }

    /** Counts up from the last new id and starts the scan over at every collision. `upTo` is
     * where the count would stand without wrapping. */
    method MakeNewRecordId() returns (r: nat, ghost upTo: nat)
      requires Valid()
      modifies `lastNewRecordId
      ensures Valid() && r == lastNewRecordId == Wrap(upTo)
      ensures FirstFree(UsedIds(Ids(stateMap)), old(lastNewRecordId), upTo)
    {
      ghost var used, from := UsedIds(Ids(stateMap)), lastNewRecordId;
      UsedIdsSize(Ids(stateMap));
      IndexSetSize(stateMap.Keys, MAX16);
      assert Ids(stateMap).Keys == stateMap.Keys && |Ids(stateMap)| == |stateMap.Keys|;
      lastNewRecordId := (lastNewRecordId + 1) % MAX32;
      upTo := from + 1;
      var rest := stateMap.Keys;
      while rest != {}
        invariant rest <= stateMap.Keys && Valid()
        invariant from < upTo <= from + |used| + 1 && lastNewRecordId == Wrap(upTo)
        invariant forall t :: from < t < upTo ==> Wrap(t) in used
        invariant forall i :: i in stateMap && i !in rest ==> stateMap[i].recordId != lastNewRecordId
        decreases from + |used| + 1 - upTo, |rest|
      {
        LeastExists(rest);
        var i :| i in rest && IsLeast(i, rest);
        if stateMap[i].recordId == lastNewRecordId {
          PassedIds(used, from, upTo);
          NextWrap(upTo);
          lastNewRecordId := (lastNewRecordId + 1) % MAX32;
          upTo := upTo + 1;
          rest := stateMap.Keys;
        } else {
          rest := rest - {i};
        }
      }
      r := lastNewRecordId;
    }
  }

  lemma NextWrap(n: nat)
    ensures (Wrap(n) + 1) % MAX32 == Wrap(n + 1)
  {
  }

  ghost predicate HasId(ids: IdMap, id: nat) {
    exists i :: i in ids && ids[i] == id
  }

  ghost function IndexOfId(ids: IdMap, id: nat): (i: nat)
    requires HasId(ids, id)
    ensures i in ids && ids[i] == id
    ensures forall j :: j in ids && ids[j] == id ==> i <= j
  {
    var holders := set j | j in ids && ids[j] == id;
    assert holders != {} by {
      var h :| h in ids && ids[h] == id;
      assert h in holders;
    }
    LeastExists(holders);
    assert forall j :: j in ids && ids[j] == id ==> j in holders;
    var i :| i in holders && IsLeast(i, holders);
    i
  }

  lemma IndexOfIdIsLeast(ids: IdMap, id: nat, i: nat)
    requires i in ids && ids[i] == id
    requires forall j :: j in ids && j < i ==> ids[j] != id
    ensures HasId(ids, id) && IndexOfId(ids, id) == i
  {
  }
}
