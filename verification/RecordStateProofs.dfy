/** The state table on the wire, and runs of new record ids. */
module RecordStateProofs {
  import opened Bytes
  import opened RecordState
  import opened Distinctness

  // ------------------------------------------------------------ the wire form

  predicate OnWire(e: State) {
    e.index < MAX16 && e.recordId < MAX32 && |e.unknown2| == 4
  }

  function EntryBytes(e: State): (b: seq<byte>)
    requires OnWire(e)
    ensures |b| == ENTRY_SIZE
  {
    [e.recType] + LE16(e.index) + LE32(e.recordId) + [if e.dirty then 1 else 0] + e.unknown2
  }

  function TableBytes(entries: seq<State>): seq<byte>
    requires forall e :: e in entries ==> OnWire(e)
  {
    if entries == [] then [] else EntryBytes(entries[0]) + TableBytes(entries[1..])
  }

  /** The entries in order, later ones winning. */
  function TableOf(m: StateMap, entries: seq<State>): StateMap
    decreases |entries|
  {
    if entries == [] then m else TableOf(m[entries[0].index := entries[0]], entries[1..])
  }

  lemma EntryRoundTrip(e: State, rest: seq<byte>)
    requires OnWire(e)
    ensures EntryAt(EntryBytes(e) + rest) == e
  {
    hide LE16, LE32, FromLE16, FromLE32;
    var b := EntryBytes(e) + rest;
    RoundTrip16(e.index);
    RoundTrip32(e.recordId);
    assert b[1..3] == LE16(e.index) && b[3..7] == LE32(e.recordId) && b[8..12] == e.unknown2;
  }

  /** Whatever table the device sends is the table the parser holds. */
  lemma {:induction false} TableRoundTrip(m: StateMap, entries: seq<State>)
    requires forall e :: e in entries ==> OnWire(e)
    ensures TableFrom(m, TableBytes(entries)) == TableOf(m, entries)
    decreases |entries|
  {
    hide EntryAt, EntryBytes;
    if entries != [] {
      var rest := TableBytes(entries[1..]);
      EntryRoundTrip(entries[0], rest);
      assert (EntryBytes(entries[0]) + rest)[ENTRY_SIZE..] == rest;
      TableRoundTrip(m[entries[0].index := entries[0]], entries[1..]);
    }
  }

  /** In a packet the table is behind a header of twelve bytes, whatever they are. */
  lemma PacketRoundTrip(m: StateMap, header: seq<byte>, entries: seq<State>)
    requires |header| == 12 && forall e :: e in entries ==> OnWire(e)
    ensures Tabled(m, header + TableBytes(entries)) == TableOf(m, entries)
  {
    hide TableFrom, TableOf, TableBytes;
    TableRoundTrip(m, entries);
    assert (header + TableBytes(entries))[12..] == TableBytes(entries);
    if TableBytes(entries) == [] {
      NothingTabled(m);
    }
  }

  lemma NothingTabled(m: StateMap)
    ensures TableFrom(m, []) == m
  {
  }

  // ------------------------------------------------------- runs of new ids

  /** One MakeNewRecordId after the other: each mark is the first free one after the last. */
  ghost predicate Generated(used: set<nat>, from: nat, marks: seq<nat>) {
    forall k :: 0 <= k < |marks| ==> FirstFree(used, Mark(from, marks, k), marks[k])
  }

  function Mark(from: nat, marks: seq<nat>, k: nat): nat
    requires k <= |marks|
  {
    if k == 0 then from else marks[k - 1]
  }

  function NewIds(marks: seq<nat>): (ids: seq<nat>)
    ensures |ids| == |marks| && forall k :: 0 <= k < |ids| ==> ids[k] == Wrap(marks[k])
  {
    seq(|marks|, k requires 0 <= k < |marks| => Wrap(marks[k]))
  }

  /** Counting on from the wrapped value is counting on. */
  lemma FirstFreeShifts(used: set<nat>, from: nat, upTo: nat)
    requires FirstFree(used, Wrap(from), upTo)
    ensures FirstFree(used, from, from - Wrap(from) + upTo)
    ensures Wrap(from - Wrap(from) + upTo) == Wrap(upTo)
  {
    var q := from / MAX32;
    assert from - Wrap(from) == q * MAX32;
    forall t: nat
      ensures Wrap(t + q * MAX32) == Wrap(t)
    {
      WrapPeriod(t, q);
    }
    forall t | from < t < from - Wrap(from) + upTo
      ensures Wrap(t) in used
    {
      assert Wrap((t - q * MAX32) + q * MAX32) == Wrap(t - q * MAX32);
    }
  }

  lemma {:induction false} WrapPeriod(t: nat, q: nat)
    ensures Wrap(t + q * MAX32) == Wrap(t)
  {
    if q > 0 {
      WrapPeriod(t, q - 1);
      assert t + q * MAX32 == t + (q - 1) * MAX32 + MAX32;
    }
  }

  lemma {:induction false} MarksGrow(used: set<nat>, from: nat, marks: seq<nat>, i: nat, j: nat)
    requires Generated(used, from, marks) && i <= j <= |marks|
    ensures Mark(from, marks, i) + (j - i) <= Mark(from, marks, j)
    decreases j
  {
    hide FirstFree;
    if i < j {
      MarksGrow(used, from, marks, i, j - 1);
      assert FirstFree(used, Mark(from, marks, j - 1), marks[j - 1]);
      FirstFreeIsLater(used, Mark(from, marks, j - 1), marks[j - 1]);
    }
  }

  lemma FirstFreeIsLater(used: set<nat>, from: nat, upTo: nat)
    requires FirstFree(used, from, upTo)
    ensures from < upTo
  {
  }

  lemma Between(used: set<nat>, from: nat, marks: seq<nat>, j: nat, t: nat)
    requires Generated(used, from, marks) && j < |marks| && Mark(from, marks, j) < t < marks[j]
    ensures Wrap(t) in used
  {
    hide Wrap;
    assert FirstFree(used, Mark(from, marks, j), marks[j]);
  }

  /** Everything counted past is used or was handed out. */
  lemma {:induction false} Covered(used: set<nat>, from: nat, marks: seq<nat>, j: nat, t: nat)
    requires Generated(used, from, marks) && j <= |marks|
    requires from < t <= Mark(from, marks, j)
    ensures Wrap(t) in used || Wrap(t) in NewIds(marks)[..j]
    decreases j
  {
    hide Wrap, Generated, NewIds;
    if j > 0 {
      var ids := NewIds(marks);
      assert |ids| == |marks| && ids[j - 1] == Wrap(marks[j - 1]);
      if t <= Mark(from, marks, j - 1) {
        Covered(used, from, marks, j - 1, t);
        assert ids[..j] == ids[..j - 1] + [ids[j - 1]];
      } else if t == marks[j - 1] {
        assert ids[..j][j - 1] == Wrap(t);
      } else {
        Between(used, from, marks, j - 1, t);
      }
    }
  }

  lemma RepeatFillsTheWindow(used: set<nat>, from: nat, marks: seq<nat>, i: nat, j: nat)
    requires Generated(used, from, marks) && i < j < |marks| && Wrap(marks[i]) == Wrap(marks[j])
    ensures MAX32 <= |used| + j
  {
    hide Wrap, Generated, NewIds;
    MarksGrow(used, from, marks, 0, i + 1);
    MarksGrow(used, from, marks, i + 1, j + 1);
    if marks[j] < marks[i] + MAX32 {
      WrapDistinct(marks[i], marks[j]);
    }
    var lo, ids := marks[i], NewIds(marks)[..j];
    forall t | lo < t <= lo + MAX32
      ensures Wrap(t) in used + Elements(ids)
    {
      if t == lo + MAX32 {
        WrapPeriod(lo, 1);
        assert ids[i] == Wrap(t);
        InElements(ids, Wrap(t));
      } else {
        if t <= Mark(from, marks, j) {
          Covered(used, from, marks, j, t);
          InElements(ids, Wrap(t));
        } else {
          Between(used, from, marks, j, t);
        }
      }
    }
    WindowFilled(used, lo, ids);
  }

  lemma WindowFilled(used: set<nat>, lo: nat, ids: seq<nat>)
    requires forall t :: lo < t <= lo + MAX32 ==> Wrap(t) in used + Elements(ids)
    ensures MAX32 <= |used| + |ids|
  {
    hide Wrap;
    assert Window(lo, lo + MAX32) <= used + Elements(ids);
    WindowSize(lo, lo + MAX32);
    SubsetSize(Window(lo, lo + MAX32), used + Elements(ids));
    ElementsSize(ids);
  }

  /** A run of new ids has no repetition exactly when there are that many free ids. */
  lemma NewIdsDistinctExactly(used: set<nat>, from: nat, marks: seq<nat>)
    requires Generated(used, from, marks)
    requires forall id :: id in used ==> id < MAX32
    ensures Distinct(NewIds(marks)) <==> |used| + |marks| <= MAX32
  {
    hide Wrap, Generated, NewIds;
    var ids := NewIds(marks);
    if Distinct(ids) {
      forall k | 0 <= k < |ids|
        ensures ids[k] !in used && ids[k] < MAX32
      {
        NewIdIsFree(used, from, marks, k);
      }
      DistinctFits(used, ids);
    } else {
      var i, j :| 0 <= i < j < |ids| && ids[i] == ids[j];
      RepeatFillsTheWindow(used, from, marks, i, j);
    }
  }

  lemma NewIdIsFree(used: set<nat>, from: nat, marks: seq<nat>, k: nat)
    requires Generated(used, from, marks) && k < |marks|
    ensures Wrap(marks[k]) !in used
  {
    assert FirstFree(used, Mark(from, marks, k), marks[k]);
  }

  lemma DistinctFits(used: set<nat>, ids: seq<nat>)
    requires Distinct(ids) && forall k :: 0 <= k < |ids| ==> ids[k] !in used && ids[k] < MAX32
    requires forall id :: id in used ==> id < MAX32
    ensures |used| + |ids| <= MAX32
  {
    ElementsSize(ids);
    assert used !! Elements(ids);
    IndexSetSize(used + Elements(ids), MAX32);
  }
}
