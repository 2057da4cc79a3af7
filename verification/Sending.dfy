/** The device at the other end of a bulk read: which packets it makes of its records, byte by byte. */
module Sending {
  import opened Bytes
  import opened MergeModel
  import opened Desktop
  import opened DeviceBuilder
  import opened Pipe

  /** A record in the database of the sender. */
  datatype Stored = Stored(recType: byte, index: nat, id: u32, payload: seq<byte>)

  /** What the reader takes no notice of in the packet of a record. */
  datatype Around = Around(socket: nat, table: byte, operation: byte, unknown: byte)

  /** A record, or a packet of some other kind between the records. */
  datatype Sent = Tagged(r: Stored, around: Around) | Other(socket: nat, command: byte, rest: seq<byte>)

  /** Socket, size, command, table command, operation, type, index, id, one unknown byte, and the record. */
  function Wire(x: Sent): (raw: Packet)
  {
    match x
    case Tagged(r, a) =>
      LE16(a.socket) + LE16(15 + |r.payload|) + [0x40, a.table, a.operation, r.recType]
      + LE16(r.index) + LE32(r.id) + [a.unknown] + r.payload
    case Other(socket, command, rest) => LE16(socket) + LE16(5 + |rest|) + [command] + rest
  }

  predicate Quiet(x: Sent) {
    x.Other? ==> x.command != 0x40 && x.command != 0x41
  }

  function Wires(sent: seq<Sent>): (packets: seq<Packet>)
    ensures |packets| == |sent|
  {
    seq(|sent|, k requires 0 <= k < |sent| => Wire(sent[k]))
  }

  /** A whole answer: the packets, the end, and whatever comes after it. */
  function Answer(sent: seq<Sent>, socket: nat, rest: seq<byte>, after: seq<Packet>): seq<Packet> {
    Wires(sent) + [Wire(Other(socket, 0x41, rest))] + after
  }

  function RecordsIn(name: string, sent: seq<Sent>): seq<Record> {
    if sent == [] then [] else
    (if sent[0].Tagged? then [Record(name, sent[0].r.recType, sent[0].r.id, sent[0].r.payload)] else [])
    + RecordsIn(name, sent[1..])
  }

  // -------------------------------------------------------------- one packet

  lemma SizeIsRead(raw: Packet, n: nat)
    requires |raw| >= 5 && raw[2..4] == LE16(n)
    ensures |raw| == n ==> (forall required: nat :: required <= n ==> GoodSize(raw, required))
    ensures |raw| < n <= 0xffff ==> !GoodSize(raw, COMMAND_END)
  {
    RoundTrip16(n);
  }

  lemma TaggedIsRead(name: string, x: Sent)
    requires x.Tagged?
    ensures var raw := Wire(x);
            && Proper(raw) && IsData(raw) && !IsDone(raw) && |raw| == 15 + |x.r.payload|
            && raw[2..4] == LE16(|raw|)
            && Meta(name, raw).AsRecord() == Record(name, x.r.recType, x.r.id, x.r.payload)
  {
    hide LE16, LE32, FromLE32, FromLE16;
    var raw := Wire(x);
    assert raw[2..4] == LE16(15 + |x.r.payload|);
    SizeIsRead(raw, 15 + |x.r.payload|);
    hide GoodSize;
    assert raw[10..14] == LE32(x.r.id) && raw[15..] == x.r.payload;
    RoundTrip32(x.r.id);
  }

  lemma OtherIsRead(x: Sent)
    requires x.Other?
    ensures var raw := Wire(x);
            && |raw| == 5 + |x.rest| && raw[2..4] == LE16(|raw|)
            && (IsDone(raw) <==> x.command == 0x41) && (Quiet(x) ==> Proper(raw) && !IsData(raw))
            && (x.command == 0x41 ==> Proper(raw))
  {
    hide LE16, FromLE16;
    var raw := Wire(x);
    assert raw[2..4] == LE16(5 + |x.rest|);
    SizeIsRead(raw, 5 + |x.rest|);
  }

  /** A packet that was cut off is noticed, wherever it was cut. */
  lemma CutIsNoticed(x: Sent, k: nat)
    requires k < |Wire(x)| <= 0xffff
    ensures !Proper(Wire(x)[..k])
  {
    hide LE16, FromLE16, Wire;
    if k >= 5 {
      if x.Tagged? {
        TaggedIsRead("", x);
      } else {
        OtherIsRead(x);
      }
      var cut := Wire(x)[..k];
      assert cut[2..4] == Wire(x)[2..4];
      SizeIsRead(cut, |Wire(x)|);
    }
  }

  // -------------------------------------------------------------- all packets

  lemma AsRecordsCons(d: DBData, ds: seq<DBData>)
    ensures AsRecords([d] + ds) == [d.AsRecord()] + AsRecords(ds)
  {
    hide DBData.AsRecord;
  }

  lemma FirstWire(sent: seq<Sent>, rest: seq<Packet>)
    requires sent != []
    ensures Wires(sent) + rest == [Wire(sent[0])] + (Wires(sent[1..]) + rest)
  {
    hide Wire;
  }

  /** Packets in front of others: each record comes out with its type, its id and its bytes, in order. */
  lemma {:induction false} SentIsReadBefore(name: string, sent: seq<Sent>, rest: seq<Packet>)
    requires forall x :: x in sent ==> Quiet(x)
    ensures var all, more := ReadPackets(name, Wires(sent) + rest), ReadPackets(name, rest);
            all.ok == more.ok && AsRecords(all.records) == RecordsIn(name, sent) + AsRecords(more.records)
    decreases |sent|
  {
    hide Wire, Wires, Quiet, Meta, IsDone, IsData, Proper, AsRecords, DBData.AsRecord;
    if sent == [] {
      NoWires();
      assert [] + rest == rest;
      assert [] + AsRecords(ReadPackets(name, rest).records) == AsRecords(ReadPackets(name, rest).records);
    } else {
      var x, others := sent[0], sent[1..];
      SentIsReadBefore(name, others, rest);
      FirstWire(sent, rest);
      var more := Wires(others) + rest;
      assert ([Wire(x)] + more)[0] == Wire(x) && ([Wire(x)] + more)[1..] == more;
      if x.Tagged? {
        TaggedIsRead(name, x);
        AsRecordsCons(Meta(name, Wire(x)), ReadPackets(name, more).records);
        Assoc([Record(name, x.r.recType, x.r.id, x.r.payload)], RecordsIn(name, others),
              AsRecords(ReadPackets(name, rest).records));
      } else {
        assert Quiet(x);
        OtherIsQuiet(x);
        assert [] + RecordsIn(name, others) == RecordsIn(name, others);
      }
    }
  }

  lemma OtherIsQuiet(x: Sent)
    requires x.Other? && Quiet(x)
    ensures Proper(Wire(x)) && !IsData(Wire(x)) && !IsDone(Wire(x))
  {
    hide Wire, Proper, IsData, IsDone;
    OtherIsRead(x);
  }

  lemma NoWires()
    ensures Wires([]) == []
  {
  }

  /** Exactly the records that were sent are read, whatever other packets are between them. */
  lemma SentIsRead(name: string, sent: seq<Sent>, socket: nat, end: seq<byte>, after: seq<Packet>)
    requires forall x :: x in sent ==> Quiet(x)
    ensures var r := ReadPackets(name, Answer(sent, socket, end, after));
            r.ok && AsRecords(r.records) == RecordsIn(name, sent)
  {
    hide Wire, Wires, Quiet, Meta, IsDone, IsData, Proper, DBData.AsRecord;
    var done := Wire(Other(socket, 0x41, end));
    OtherIsRead(Other(socket, 0x41, end));
    SentIsReadBefore(name, sent, [done] + after);
    Assoc(Wires(sent), [done], after);
    assert RecordsIn(name, sent) + [] == RecordsIn(name, sent);
  }

  /** If a packet is cut off, or the sender falls silent, reading fails with the records in front of that. */
  lemma CutIsRead(name: string, sent: seq<Sent>, x: Sent, k: nat, after: seq<Packet>)
    requires (forall y :: y in sent ==> Quiet(y)) && k < |Wire(x)| <= 0xffff
    ensures var r := ReadPackets(name, Wires(sent) + ([Wire(x)[..k]] + after));
            !r.ok && AsRecords(r.records) == RecordsIn(name, sent)
    ensures var r := ReadPackets(name, Wires(sent) + []); !r.ok && AsRecords(r.records) == RecordsIn(name, sent)
  {
    hide Wire, Wires, Quiet, Meta, IsDone, IsData, Proper, DBData.AsRecord;
    CutIsNoticed(x, k);
    SentIsReadBefore(name, sent, [Wire(x)[..k]] + after);
    SentIsReadBefore(name, sent, []);
    assert RecordsIn(name, sent) + [] == RecordsIn(name, sent);
  }
}
