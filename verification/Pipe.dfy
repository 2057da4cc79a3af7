/** `Pipe`: pulls records out of a builder and pushes them into a parser. */
module Pipe {
  import opened Bytes
  import opened MergeModel
  import opened Desktop
  import opened DeviceParser
  import opened DeviceBuilder

  function AsRecords(ds: seq<DBData>): seq<Record> {
    seq(|ds|, k requires 0 <= k < |ds| => ds[k].AsRecord())
  }

  lemma MoveOne(done: seq<Record>, d: DBData, rest: seq<DBData>)
    ensures done + [d.AsRecord()] + AsRecords(rest) == done + AsRecords([d] + rest)
  {
  }

  lemma NoRecords(done: seq<Record>)
    ensures done + AsRecords([]) == done
  {
  }

  lemma IsPrefix(a: seq<Record>, b: seq<Record>)
    ensures a <= a + b
  {
  }

  datatype Pumped = More | SeriesEnd | Threw

  class Pipe {
    const builder: DeviceBuilder

    constructor (builder: DeviceBuilder)
      ensures this.builder == builder
    {
      this.builder := builder;
    }

    ghost predicate Ready(parser: DeviceParser)
      reads this, builder, builder.loader, builder.desktop
      reads parser, parser.desktop, parser.desktop.command, parser.desktop.command.memBlock, parser.rstate
    {
      builder.Valid() && parser.Valid() && parser.desktop != builder.desktop
    }

    /** All records of the transfer: those parsed and those still to be read. */
    ghost function Total(parser: DeviceParser): seq<Record>
      requires builder.Valid()
      reads this, builder, builder.loader, builder.desktop, parser
    {
      parser.history + AsRecords(builder.Remaining().records)
    }

    /** How a transfer of `total` records ends that is not completed: either everything readable has been
     * parsed and the reading failed, or the device refused a record, which is the next one. */
    ghost predicate Stopped(parser: DeviceParser, total: seq<Record>, readable: bool, refusals: nat)
      reads builder, parser, parser.desktop, parser.desktop.command, parser.desktop.command.memBlock
    {
      && parser.Intact()
      && (if parser.failed == [] then
            !readable && parser.history == total && parser.desktop.refusals == refusals
          else
            && |parser.failed| == 1 && parser.history + parser.failed <= total
            && parser.desktop.refusals > refusals && (builder.Named() ==> parser.desktop.Declined()))
    }

    method PumpEntry(parser: DeviceParser) returns (r: Pumped)
      requires Ready(parser)
      modifies builder`current, builder`started, builder.loader, builder.desktop`pending, builder.desktop`ends
      modifies parser, parser.rstate, parser.desktop`dbs, parser.desktop`asked, parser.desktop`refusals
      modifies parser.desktop.command, parser.desktop.command.memBlock
      ensures parser.desktop.command.memBlock == old(parser.desktop.command.memBlock)
              || fresh(parser.desktop.command.memBlock)
      ensures !r.Threw? ==> Ready(parser) && Total(parser) == old(Total(parser))
      ensures !r.Threw? ==> builder.Remaining().ok == old(builder.Remaining().ok)
      ensures !r.Threw? ==> parser.desktop.refusals == old(parser.desktop.refusals)
      ensures !r.Threw? ==>
                builder.desktop.ends + builder.EndsLeft() == old(builder.desktop.ends) + old(builder.EndsLeft())
      ensures r.Threw? ==>
                Stopped(parser, old(Total(parser)), old(builder.Remaining().ok), old(parser.desktop.refusals))
      ensures r.More? ==> !builder.EndOfFile()
      ensures !r.Threw? && !old(builder.EndOfFile()) ==>
                builder.Rank() < old(builder.Rank())
                || (r.More? && builder.Rank() == old(builder.Rank())
                    && |builder.desktop.pending| < |old(builder.desktop.pending)|)
    {
      hide Run, ReadPackets, ReadAll, AsRecords, Desktop.Declined, Partial;
      ghost var done := parser.history;
      var fetched := builder.FetchRecord();
      match fetched
      case Thrown =>
        NoRecords(done);
        r := Threw;
      case End => r := SeriesEnd;
      case Got(data) =>
        ghost var rest := builder.Remaining().records;
        MoveOne(done, data, rest);
        assert builder.Named() ==> data.dbName != "";
        var ok := parser.ParseRecord(data);
        r := if ok then More else Threw;
        IsPrefix(done + [data.AsRecord()], AsRecords(rest));
    }

    /** True if the series came to its end, false if something was thrown. */
    method PumpSeries(parser: DeviceParser) returns (ok: bool)
      requires Ready(parser) && !builder.EndOfFile()
      modifies builder`current, builder`started, builder.loader, builder.desktop`pending, builder.desktop`ends
      modifies parser, parser.rstate, parser.desktop`dbs, parser.desktop`asked, parser.desktop`refusals
      modifies parser.desktop.command, parser.desktop.command.memBlock
      ensures parser.desktop.command.memBlock == old(parser.desktop.command.memBlock)
              || fresh(parser.desktop.command.memBlock)
      ensures ok ==> Ready(parser) && Total(parser) == old(Total(parser))
      ensures ok ==> builder.Remaining().ok == old(builder.Remaining().ok)
      ensures ok ==> parser.desktop.refusals == old(parser.desktop.refusals)
      ensures ok ==> builder.desktop.ends + builder.EndsLeft() == old(builder.desktop.ends) + old(builder.EndsLeft())
      ensures ok ==> builder.Rank() < old(builder.Rank())
      ensures !ok ==>
                Stopped(parser, old(Total(parser)), old(builder.Remaining().ok), old(parser.desktop.refusals))
    {
      hide Run, ReadPackets, ReadAll, AsRecords, Desktop.Declined, Partial;
      while true
        invariant parser.desktop.command.memBlock == old(parser.desktop.command.memBlock)
                  || fresh(parser.desktop.command.memBlock)
        invariant Ready(parser) && !builder.EndOfFile()
        invariant Total(parser) == old(Total(parser))
        invariant builder.Remaining().ok == old(builder.Remaining().ok)
        invariant parser.desktop.refusals == old(parser.desktop.refusals)
        invariant builder.desktop.ends + builder.EndsLeft() == old(builder.desktop.ends) + old(builder.EndsLeft())
        invariant builder.Rank() <= old(builder.Rank())
        decreases builder.Rank(), |builder.desktop.pending|
      {
        var r := PumpEntry(parser);
        match r
        case Threw => return false;
        case SeriesEnd => return true;
        case More =>
      }
    }

    /** Succeeds exactly if the databases can be read in full and the device refuses nothing. Then every
     * record of every added database has reached the parser once and in order, and the end of each database
     * has been received once. Otherwise a first part of these records has been parsed, which is all of them
     * if the device refused nothing. */
    method PumpFile(parser: DeviceParser) returns (ok: bool)
      requires Ready(parser)
      modifies builder`current, builder`started, builder.loader, builder.desktop`pending, builder.desktop`ends
      modifies parser, parser.rstate, parser.desktop`dbs, parser.desktop`asked, parser.desktop`refusals
      modifies parser.desktop.command, parser.desktop.command.memBlock
      ensures parser.desktop.command.memBlock == old(parser.desktop.command.memBlock)
              || fresh(parser.desktop.command.memBlock)
      ensures ok <==> old(builder.Remaining().ok) && parser.desktop.refusals == old(parser.desktop.refusals)
      ensures ok ==> Ready(parser) && builder.EndOfFile() && parser.history == old(Total(parser))
      ensures ok ==> builder.desktop.ends == old(builder.desktop.ends) + old(builder.EndsLeft())
      ensures !ok ==>
                Stopped(parser, old(Total(parser)), old(builder.Remaining().ok), old(parser.desktop.refusals))
    {
      hide Run, ReadPackets, Desktop.Declined, Partial;
      while !builder.EndOfFile()
        invariant parser.desktop.command.memBlock == old(parser.desktop.command.memBlock)
                  || fresh(parser.desktop.command.memBlock)
        invariant Ready(parser)
        invariant Total(parser) == old(Total(parser))
        invariant builder.Remaining().ok == old(builder.Remaining().ok)
        invariant parser.desktop.refusals == old(parser.desktop.refusals)
        invariant builder.desktop.ends + builder.EndsLeft() == old(builder.desktop.ends) + old(builder.EndsLeft())
        decreases builder.Rank()
      {
        ok := PumpSeries(parser);
        if !ok {
          return;
        }
      }
      ok := true;
      assert parser.history + [] == parser.history;
    }
  }
}
