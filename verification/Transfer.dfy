/** From device to device: what a pumped transfer leaves behind. */
module Transfer {
  import opened Bytes
  import opened RecordState
  import opened MergeModel
  import opened MergeRuns
  import opened MergeViews
  import opened Desktop
  import opened DeviceParser
  import opened DeviceBuilder
  import opened Pipe
  import opened Sending

  // ------------------------------------------------------ what is read at all

  /** The records among the packets. */
  function DataIn(name: string, packets: seq<Packet>): seq<DBData>
    requires forall p :: p in packets ==> Proper(p)
  {
    if packets == [] then [] else
      assert packets[0] in packets && Proper(packets[0]);
      (if IsData(packets[0]) then [Meta(name, packets[0])] else []) + DataIn(name, packets[1..])
  }

  /** The packets in front of the first end, if every one of them is well formed. */
  ghost predicate Complete(packets: seq<Packet>, k: nat) {
    k < |packets| && IsDone(packets[k]) && forall i :: 0 <= i < k ==> Proper(packets[i]) && !IsDone(packets[i])
  }

  /** A database is read in full exactly when its end comes before any silence or malformed
   * packet; then each data packet in front of the end gives one record, in order. */
  lemma {:induction false} ReadsExactly(name: string, packets: seq<Packet>)
    ensures ReadPackets(name, packets).ok <==> exists k: nat :: Complete(packets, k)
    ensures forall k: nat :: Complete(packets, k) ==> ReadPackets(name, packets).records == DataIn(name, packets[..k])
  {
    if packets != [] {
      var rest := packets[1..];
      ReadsExactly(name, rest);
      forall k: nat | Complete(packets, k)
        ensures ReadPackets(name, packets).ok
        ensures ReadPackets(name, packets).records == DataIn(name, packets[..k])
      {
        if k > 0 {
          CompleteShift(packets, k);
          assert packets[..k][1..] == rest[..k - 1] && packets[..k][0] == packets[0];
        }
      }
      if ReadPackets(name, packets).ok {
        if IsDone(packets[0]) {
          assert Complete(packets, 0);
        } else {
          var k: nat :| Complete(rest, k);
          CompleteShift(packets, k + 1);
        }
      }
    }
  }

  lemma CompleteShift(packets: seq<Packet>, k: nat)
    requires packets != [] && k > 0
    requires Proper(packets[0]) && !IsDone(packets[0])
    ensures Complete(packets, k) <==> Complete(packets[1..], k - 1)
  {
    if Complete(packets[1..], k - 1) {
      forall i | 0 <= i < k
        ensures Proper(packets[i]) && !IsDone(packets[i])
      {
        if i > 0 {
          assert packets[1..][i - 1] == packets[i];
        }
      }
    }
  }

  // ------------------------------------------------------------- as one stream

  /** The databases that have records, each as one block of the stream. */
  function BlocksOf(d: Desktop, labels: seq<Label>): seq<Block> {
    if labels == [] then [] else
    var l := labels[0];
    var records := AsRecords(ReadPackets(l.name, d.Answer(l.id)).records);
    (if records == [] then [] else [Block(l.name, records)]) + BlocksOf(d, labels[1..])
  }

  lemma {:induction false} StreamCons(b: Block, blocks: seq<Block>)
    ensures Stream([b] + blocks) == b.records + Stream(blocks)
    decreases |blocks|
  {
    if blocks == [] {
      assert ([b] + blocks)[..0] == [] && [b] + blocks == [b];
      assert Stream([b]) == Stream([]) + b.records;
    } else {
      var init := blocks[..|blocks| - 1];
      assert ([b] + blocks)[..|blocks|] == [b] + init;
      StreamCons(b, init);
    }
  }

  lemma {:induction false} ReadAllIsStream(d: Desktop, labels: seq<Label>)
    requires ReadAll(d, labels).ok
    ensures AsRecords(ReadAll(d, labels).records) == Stream(BlocksOf(d, labels))
  {
    hide Stream, BlocksOf, AsRecords;
    if labels == [] {
      NothingRead();
      NothingStreams(d);
    } else {
      ReadAllIsStream(d, labels[1..]);
      BlocksCons(d, labels);
      RecordsAppend(ReadPackets(labels[0].name, d.Answer(labels[0].id)).records, ReadAll(d, labels[1..]).records);
    }
  }

  lemma NothingStreams(d: Desktop)
    ensures Stream(BlocksOf(d, [])) == []
  {
  }

  lemma {:induction false} NamesOfPackets(name: string, packets: seq<Packet>)
    ensures forall r :: r in AsRecords(ReadPackets(name, packets).records) ==> r.name == name
  {
    if packets != [] {
      NamesOfPackets(name, packets[1..]);
      var rest := ReadPackets(name, packets[1..]).records;
      if Proper(packets[0]) && IsData(packets[0]) {
        var all := ReadPackets(name, packets).records;
        forall r | r in AsRecords(all)
          ensures r.name == name
        {
          var k :| 0 <= k < |all| && AsRecords(all)[k] == r;
          assert k > 0 ==> AsRecords(rest)[k - 1] == r;
        }
      }
    }
  }

  /** The labels name different databases, also on the receiving side. */
  ghost predicate LabelsApart(list: DbList, labels: seq<Label>) {
    && (forall i :: 0 <= i < |labels| ==> labels[i].name != "")
    && (forall i, j :: 0 <= i < j < |labels| ==>
          && labels[i].name != labels[j].name
          && (Lists(list, labels[i].name) && Lists(list, labels[j].name) ==>
                Number(list, labels[i].name) != Number(list, labels[j].name)))
  }

  /** Every block is good and was read under one of the labels from number `from` on. */
  ghost predicate Labelled(labels: seq<Label>, from: nat, blocks: seq<Block>) {
    forall k :: 0 <= k < |blocks| ==> GoodBlock(blocks[k]) && HasLabel(labels, from, blocks[k].name)
  }

  ghost predicate HasLabel(labels: seq<Label>, from: nat, name: string) {
    exists i :: from <= i < |labels| && labels[i].name == name
  }

  lemma {:induction false} BlocksApart(d: Desktop, list: DbList, labels: seq<Label>)
    requires LabelsApart(list, labels)
    ensures Labelled(labels, 0, BlocksOf(d, labels)) && Apart(list, BlocksOf(d, labels))
  {
    hide Lists, Number, GoodBlock, HasLabel, LabelsApart;
    if labels != [] {
      var l, rest := labels[0], labels[1..];
      FewerApart(list, labels);
      BlocksApart(d, list, rest);
      var blocks, others := BlocksOf(d, labels), BlocksOf(d, rest);
      forall k | 0 <= k < |others| ensures HasLabel(labels, 0, others[k].name) && HasLabel(labels, 1, others[k].name) {
        LabelShifts(labels, others[k].name);
      }
      FirstApart(list, labels, others);
      FirstBlock(d, labels);
      if blocks != others {
        assert blocks == [blocks[0]] + others;
      }
    }
  }

  lemma FewerApart(list: DbList, labels: seq<Label>)
    requires LabelsApart(list, labels) && labels != []
    ensures LabelsApart(list, labels[1..])
  {
    hide Lists, Number;
  }

  lemma LabelShifts(labels: seq<Label>, name: string)
    requires labels != [] && HasLabel(labels[1..], 0, name)
    ensures HasLabel(labels, 0, name) && HasLabel(labels, 1, name)
  {
    var i :| 0 <= i < |labels[1..]| && labels[1..][i].name == name;
    assert labels[i + 1].name == name;
  }

  lemma FirstBlock(d: Desktop, labels: seq<Label>)
    requires labels != [] && labels[0].name != ""
    ensures var blocks, others := BlocksOf(d, labels), BlocksOf(d, labels[1..]);
            blocks == others ||
            (|blocks| > 0 && blocks == [blocks[0]] + others && blocks[0].name == labels[0].name
             && GoodBlock(blocks[0]) && HasLabel(labels, 0, blocks[0].name))
  {
    NamesOfPackets(labels[0].name, d.Answer(labels[0].id));
    assert labels[0].name == labels[0].name;
  }

  lemma FirstApart(list: DbList, labels: seq<Label>, others: seq<Block>)
    requires LabelsApart(list, labels) && labels != [] && Labelled(labels, 1, others)
    ensures labels[0].name != ""
    ensures forall k :: 0 <= k < |others| ==>
              && labels[0].name != others[k].name
              && (Lists(list, labels[0].name) && Lists(list, others[k].name) ==>
                    Number(list, labels[0].name) != Number(list, others[k].name))
  {
    hide Lists, Number, GoodBlock;
  }

  /** A transfer that is not interrupted merges every database that was read into the one of the
   * same name, and leaves all others alone. */
  lemma TransferMerges(d: Desktop, labels: seq<Label>, list: DbList, mode: Mode, before: Device, t: Merge)
    requires ReadAll(d, labels).ok && LabelsApart(list, labels) && DeviceHas(list, before)
    requires Run(list, mode, Merge(before, "", 0, map[], 1), AsRecords(ReadAll(d, labels).records), t)
    ensures AllMerged(list, mode, before, BlocksOf(d, labels), t.dbs)
  {
    ReadAllIsStream(d, labels);
    BlocksApart(d, list, labels);
    StreamMerges(list, mode, Merge(before, "", 0, map[], 1), BlocksOf(d, labels), t);
  }

  // --------------------------------------------------- what the sender has stored

  /** The source answers the request for this database with the packets of these records, and others. */
  ghost predicate Sends(d: Desktop, id: nat, sent: seq<Sent>) {
    && (forall x :: x in sent ==> Quiet(x))
    && exists socket: nat, end: seq<byte>, after: seq<Packet> ::
         d.Answer(id) == Sending.Answer(sent, socket, end, after)
  }

  ghost predicate SendsAll(d: Desktop, labels: seq<Label>, sent: seq<seq<Sent>>) {
    |sent| == |labels| && forall k :: 0 <= k < |labels| ==> Sends(d, labels[k].id, sent[k])
  }

  /** The databases that have records, each with what its sender has stored. */
  function SentBlocks(labels: seq<Label>, sent: seq<seq<Sent>>): seq<Block>
    requires |sent| == |labels|
  {
    if labels == [] then [] else
    var records := RecordsIn(labels[0].name, sent[0]);
    (if records == [] then [] else [Block(labels[0].name, records)]) + SentBlocks(labels[1..], sent[1..])
  }

  /** What is read is what was stored: every record with its type, its id and its bytes, and no other. */
  lemma {:induction false} SentIsTransferred(d: Desktop, labels: seq<Label>, sent: seq<seq<Sent>>)
    requires SendsAll(d, labels, sent)
    ensures ReadAll(d, labels).ok && BlocksOf(d, labels) == SentBlocks(labels, sent)
    decreases |labels|
  {
    hide ReadPackets, AsRecords, RecordsIn, Sending.Answer;
    if labels != [] {
      var socket: nat, end: seq<byte>, after: seq<Packet> :|
        d.Answer(labels[0].id) == Sending.Answer(sent[0], socket, end, after);
      SentIsRead(labels[0].name, sent[0], socket, end, after);
      forall k | 0 <= k < |labels[1..]| ensures Sends(d, labels[1..][k].id, sent[1..][k]) {
        assert labels[1..][k] == labels[k + 1] && sent[1..][k] == sent[k + 1];
      }
      SentIsTransferred(d, labels[1..], sent[1..]);
    }
  }

  // ------------------------------------------------------- a transfer that stops

  /** The first blocks, of which the last may lack records at its end. */
  ghost predicate CutOf(cut: seq<Block>, blocks: seq<Block>) {
    && |cut| <= |blocks|
    && forall k :: 0 <= k < |cut| ==>
         && cut[k].name == blocks[k].name && cut[k].records <= blocks[k].records
         && (k + 1 < |cut| ==> cut[k] == blocks[k])
  }

  lemma CutBefore<T>(s: seq<T>, a: seq<T>, b: seq<T>)
    requires s <= a + b
    ensures |s| <= |a| ==> s <= a
    ensures |s| > |a| ==> s == a + s[|a|..] && s[|a|..] <= b
  {
    var ab := a + b;
    assert s == ab[..|s|];
    if |s| <= |a| {
      assert s == a[..|s|];
    } else {
      assert s[..|a|] == a;
      assert s[|a|..] == b[..|s| - |a|];
    }
  }

  lemma PartIsGood(init: seq<Block>, b: Block, part: seq<Record>)
    requires AllGood(init + [b]) && part <= b.records && part != []
    ensures AllGood(init) && AllGood(init + [Block(b.name, part)]) && CutOf(init + [Block(b.name, part)], init + [b])
  {
    var cut, blocks := init + [Block(b.name, part)], init + [b];
    assert GoodBlock(blocks[|init|]);
    forall k | 0 <= k < |init| ensures GoodBlock(init[k]) && cut[k] == blocks[k] == init[k] {
      assert GoodBlock(blocks[k]);
    }
    forall r | r in part ensures r in b.records {
    }
  }

  /** Wherever a stream of blocks is cut off, the rest of it is a stream of blocks. */
  lemma {:induction false} CutStream(blocks: seq<Block>, stream: seq<Record>) returns (cut: seq<Block>)
    requires stream <= Stream(blocks) && AllGood(blocks)
    ensures CutOf(cut, blocks) && Stream(cut) == stream && AllGood(cut)
    decreases |blocks|
  {
    hide GoodBlock, Stream;
    if blocks == [] {
      NoStream();
      cut := [];
    } else {
      var init, b := blocks[..|blocks| - 1], blocks[|blocks| - 1];
      assert blocks == init + [b];
      StreamSnoc(init, b);
      CutBefore(stream, Stream(init), b.records);
      if |stream| <= |Stream(init)| {
        cut := CutStream(init, stream);
      } else {
        var part := stream[|Stream(init)|..];
        cut := init + [Block(b.name, part)];
        PartIsGood(init, b, part);
        StreamSnoc(init, Block(b.name, part));
      }
    }
  }

  lemma CutApart(list: DbList, cut: seq<Block>, blocks: seq<Block>)
    requires CutOf(cut, blocks) && Apart(list, blocks)
    ensures Apart(list, cut)
  {
    hide Lists, Number;
  }

  /** What can be read at all is a first part of all blocks. */
  lemma {:induction false} ReadAllBegins(d: Desktop, labels: seq<Label>)
    ensures AsRecords(ReadAll(d, labels).records) <= Stream(BlocksOf(d, labels))
  {
    hide Stream, BlocksOf, AsRecords;
    if labels == [] {
      NothingRead();
    } else {
      var first, rest := ReadPackets(labels[0].name, d.Answer(labels[0].id)), labels[1..];
      ReadAllBegins(d, rest);
      BlocksCons(d, labels);
      var part, more := AsRecords(first.records), AsRecords(ReadAll(d, rest).records);
      RecordsAppend(first.records, ReadAll(d, rest).records);
      var blocks := Stream(BlocksOf(d, rest));
      assert part + more <= part + blocks by {
        assert blocks == more + blocks[|more|..];
        assert part + blocks == (part + more) + blocks[|more|..];
      }
    }
  }

  lemma NothingRead()
    ensures AsRecords([]) == []
  {
  }

  lemma RecordsAppend(a: seq<DBData>, b: seq<DBData>)
    ensures AsRecords(a + b) == AsRecords(a) + AsRecords(b)
  {
  }

  lemma BlocksOfCons(d: Desktop, labels: seq<Label>)
    requires labels != []
    ensures var l := labels[0]; var records := AsRecords(ReadPackets(l.name, d.Answer(l.id)).records);
            BlocksOf(d, labels)
            == (if records == [] then [] else [Block(l.name, records)]) + BlocksOf(d, labels[1..])
  {
  }

  lemma BlocksCons(d: Desktop, labels: seq<Label>)
    requires labels != []
    ensures Stream(BlocksOf(d, labels))
         == AsRecords(ReadPackets(labels[0].name, d.Answer(labels[0].id)).records) + Stream(BlocksOf(d, labels[1..]))
  {
    hide ReadPackets, AsRecords, Stream, BlocksOf;
    var first := AsRecords(ReadPackets(labels[0].name, d.Answer(labels[0].id)).records);
    var blocks := BlocksOf(d, labels[1..]);
    BlocksOfCons(d, labels);
    if first == [] {
      assert [] + blocks == blocks;
      assert [] + Stream(blocks) == Stream(blocks);
    } else {
      StreamCons(Block(labels[0].name, first), blocks);
    }
  }

  /** Whatever has been parsed of a transfer is merged database by database; the last of them in part. */
  lemma PartMerges(d: Desktop, labels: seq<Label>, list: DbList, mode: Mode, before: Device, parsed: seq<Record>,
                   t: Merge)
    returns (cut: seq<Block>)
    requires parsed <= AsRecords(ReadAll(d, labels).records) && LabelsApart(list, labels) && DeviceHas(list, before)
    requires Run(list, mode, Merge(before, "", 0, map[], 1), parsed, t)
    ensures CutOf(cut, BlocksOf(d, labels)) && Stream(cut) == parsed && AllMerged(list, mode, before, cut, t.dbs)
  {
    hide ReadAll, Run, AllMerged, Apart, LabelsApart;
    ReadAllBegins(d, labels);
    BlocksApart(d, list, labels);
    cut := CutStream(BlocksOf(d, labels), parsed);
    CutApart(list, cut, BlocksOf(d, labels));
    StreamMerges(list, mode, Merge(before, "", 0, map[], 1), cut, t);
  }

  /** A refused record takes nothing away either, unless the mode erases. */
  lemma StoppedKeeps(list: DbList, mode: Mode, before: Device, parsed: seq<Record>, t: Merge, failed: seq<Record>,
                     after: Device)
    requires !mode.EraseAllWriteAll? && Run(list, mode, Merge(before, "", 0, map[], 1), parsed, t)
    requires if failed == [] then after == t.dbs else Partial(list, mode, t.dbs, failed[0], after)
    ensures KeepsAll(before, after, !mode.IndividualOverwrite?)
  {
    hide Run;
    NothingLost(list, mode, Merge(before, "", 0, map[], 1), parsed, t);
  }

  /** What a transfer has come to: the records parsed, the one refused, the state after the former, and the
   * blocks they make. */
  datatype Progress = Progress(parsed: seq<Record>, failed: seq<Record>, reached: Merge, cut: seq<Block>)

  /** The target is what the parsed records have made of it, but for what the refused one has done. */
  ghost predicate Leaves(source: Desktop, labels: seq<Label>, list: DbList, mode: Mode, before: Device, p: Progress,
                         after: Device)
  {
    && p.parsed + p.failed <= AsRecords(ReadAll(source, labels).records)
    && (p.failed == [] ==> p.parsed == AsRecords(ReadAll(source, labels).records))
    && (if p.failed == [] then after == p.reached.dbs else Partial(list, mode, p.reached.dbs, p.failed[0], after))
    && (!mode.EraseAllWriteAll? ==> KeepsAll(before, after, !mode.IndividualOverwrite?))
    && (LabelsApart(list, labels) ==>
          CutOf(p.cut, BlocksOf(source, labels)) && Stream(p.cut) == p.parsed
          && AllMerged(list, mode, before, p.cut, p.reached.dbs))
  }

  /** The whole way: builder, pipe and parser, for databases added by name. It succeeds exactly if all of them
   * can be read in full and the target refuses nothing; otherwise the target is the outcome of a first part
   * of the transfer, and of at most one erasure. */
  method TransferDatabases(source: Desktop, target: Desktop, names: seq<string>, mode: Mode)
    returns (ok: bool, ghost p: Progress)
    requires source.Valid() && target.Valid() && source != target
    modifies source`pending, source`ends, target`dbs, target`asked, target`refusals
    modifies target.command, target.command.memBlock
    ensures target.Valid()
    ensures ok <==> ReadAll(source, LabelsFor(source.dbdb, names)).ok && target.refusals == old(target.refusals)
    ensures Leaves(source, LabelsFor(source.dbdb, names), target.dbdb, mode, old(target.dbs), p, target.dbs)
    ensures p.failed != [] ==> |p.failed| == 1 && target.refusals > old(target.refusals)
    ensures p.failed != [] && LabelsApart(target.dbdb, LabelsFor(source.dbdb, names)) ==> target.Declined()
    ensures ok && LabelsApart(target.dbdb, LabelsFor(source.dbdb, names)) ==>
              AllMerged(target.dbdb, mode, old(target.dbs), BlocksOf(source, LabelsFor(source.dbdb, names)), target.dbs)
    ensures ok ==> source.ends == old(source.ends) + |LabelsFor(source.dbdb, names)|
    ensures forall sent :: SendsAll(source, LabelsFor(source.dbdb, names), sent) ==>
              && (ok <==> target.refusals == old(target.refusals))
              && (ok && LabelsApart(target.dbdb, LabelsFor(source.dbdb, names)) ==>
                    AllMerged(target.dbdb, mode, old(target.dbs), SentBlocks(LabelsFor(source.dbdb, names), sent),
                              target.dbs))
  {
    hide ReadAll, Run, AllMerged, LabelsApart, Leaves, Desktop.Declined, RangesFit, SendsAll;
    var builder := new DeviceBuilder(source);
    AddAll(builder, names);
    ok, p := PumpAll(builder, target, mode);
    if ok && LabelsApart(target.dbdb, builder.dbIds) {
      TransferMerges(source, builder.dbIds, target.dbdb, mode, old(target.dbs), p.reached);
      LeavesReached(source, builder.dbIds, target.dbdb, mode, old(target.dbs), p, target.dbs);
    }
    forall sent | SendsAll(source, builder.dbIds, sent)
      ensures ReadAll(source, builder.dbIds).ok && |sent| == |builder.dbIds|
      ensures BlocksOf(source, builder.dbIds) == SentBlocks(builder.dbIds, sent)
    {
      SentIsTransferred(source, builder.dbIds, sent);
      SentSizes(source, builder.dbIds, sent);
    }
  }

  lemma SentSizes(d: Desktop, labels: seq<Label>, sent: seq<seq<Sent>>)
    requires SendsAll(d, labels, sent)
    ensures |sent| == |labels|
  {
  }

  lemma LeavesReached(source: Desktop, labels: seq<Label>, list: DbList, mode: Mode, before: Device, p: Progress,
                      after: Device)
    requires Leaves(source, labels, list, mode, before, p, after) && p.failed == []
    ensures after == p.reached.dbs
  {
  }

  method PumpAll(builder: DeviceBuilder, target: Desktop, mode: Mode) returns (ok: bool, ghost p: Progress)
    requires builder.Valid() && !builder.started && target.Valid() && builder.desktop != target
    modifies builder`current, builder`started, builder.loader, builder.desktop`pending, builder.desktop`ends
    modifies target`dbs, target`asked, target`refusals, target.command, target.command.memBlock
    ensures target.Valid()
    ensures ok <==> ReadAll(builder.desktop, builder.dbIds).ok && target.refusals == old(target.refusals)
    ensures Leaves(builder.desktop, builder.dbIds, target.dbdb, mode, old(target.dbs), p, target.dbs)
    ensures p.failed != [] ==> |p.failed| == 1 && target.refusals > old(target.refusals)
    ensures p.failed != [] && LabelsApart(target.dbdb, builder.dbIds) ==> target.Declined()
    ensures ok ==> p.parsed == AsRecords(ReadAll(builder.desktop, builder.dbIds).records) && p.failed == []
    ensures ok ==> Run(target.dbdb, mode, Merge(old(target.dbs), "", 0, map[], 1), p.parsed, p.reached)
    ensures ok ==> builder.desktop.ends == old(builder.desktop.ends) + |builder.dbIds|
  {
    hide ReadAll, Run, AllMerged, LabelsApart, Partial, Leaves, Desktop.Declined;
    var parser := new DeviceParser(target, mode);
    var pipe := new Pipe(builder);
    ghost var all := AsRecords(ReadAll(builder.desktop, builder.dbIds).records);
    assert [] + all == all;
    ok := pipe.PumpFile(parser);
    assert parser.Intact();
    p := Summary(builder.desktop, builder.dbIds, target.dbdb, mode, old(target.dbs), parser.history, parser.failed,
                 parser.reached, target.dbs);
    if LabelsApart(target.dbdb, builder.dbIds) {
      ApartNamed(target.dbdb, builder.dbIds);
    }
  }

  lemma Summary(source: Desktop, labels: seq<Label>, list: DbList, mode: Mode, before: Device, parsed: seq<Record>,
                failed: seq<Record>, reached: Merge, after: Device)
    returns (p: Progress)
    requires DeviceHas(list, before) && Run(list, mode, Merge(before, "", 0, map[], 1), parsed, reached)
    requires parsed + failed <= AsRecords(ReadAll(source, labels).records)
    requires failed == [] ==> parsed == AsRecords(ReadAll(source, labels).records)
    requires if failed == [] then after == reached.dbs else Partial(list, mode, reached.dbs, failed[0], after)
    ensures p.parsed == parsed && p.failed == failed && p.reached == reached
    ensures Leaves(source, labels, list, mode, before, p, after)
  {
    hide ReadAll, Run, AllMerged, LabelsApart, Partial, KeepsAll, CutOf, AsRecords;
    p := Progress(parsed, failed, reached, []);
    assert parsed <= parsed + failed;
    if !mode.EraseAllWriteAll? {
      StoppedKeeps(list, mode, before, parsed, reached, failed, after);
    }
    if LabelsApart(list, labels) {
      var cut := PartMerges(source, labels, list, mode, before, parsed, reached);
      p := p.(cut := cut);
    }
  }

  lemma ApartNamed(list: DbList, labels: seq<Label>)
    requires LabelsApart(list, labels)
    ensures forall k :: 0 <= k < |labels| ==> labels[k].name != ""
  {
  }

  method AddAll(builder: DeviceBuilder, names: seq<string>)
    requires builder.Valid() && !builder.started && builder.dbIds == []
    modifies builder`dbIds
    ensures builder.Valid() && builder.dbIds == LabelsFor(builder.desktop.dbdb, names)
  {
    assert names[..0] == [];
    for k := 0 to |names|
      invariant builder.Valid() && builder.dbIds == LabelsFor(builder.desktop.dbdb, names[..k])
    {
      LabelsSnoc(builder.desktop.dbdb, names[..k], names[k]);
      assert names[..k] + [names[k]] == names[..k + 1];
      var added := builder.Add(names[k]);
    }
    assert names[..|names|] == names;
  }

  function LabelsFor(list: DbList, names: seq<string>): seq<Label> {
    if names == [] then [] else
      (if Lists(list, names[0]) then [Label(Number(list, names[0]), names[0])] else []) + LabelsFor(list, names[1..])
  }

  lemma {:induction false} LabelsSnoc(list: DbList, names: seq<string>, name: string)
    ensures LabelsFor(list, names + [name])
         == LabelsFor(list, names) + if Lists(list, name) then [Label(Number(list, name), name)] else []
  {
    if names != [] {
      assert (names + [name])[1..] == names[1..] + [name];
      LabelsSnoc(list, names[1..], name);
    } else {
      assert names + [name] == [name];
    }
  }
}
