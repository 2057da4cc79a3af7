/** `PppFilter`: the streaming filter that inserts missing PPP flags. */
module PppFilter {
  import opened Bytes
  import opened BufferModel
  import opened BufferRefinement
  import opened DataBuffer
  import opened PppTransducer

  class PppFilter {
    const writeBuf: Data
    var pppMode: bool
    var last: byte

    ghost predicate Valid()
      reads this, writeBuf, writeBuf.memBlock
    {
      writeBuf.Valid()
    }

    constructor ()
      ensures Valid() && !pppMode && Closed()
      ensures fresh(writeBuf) && fresh(writeBuf.memBlock)
    {
      writeBuf := new Data();
      pppMode, last := false, FLAG;
    }

    predicate Closed()
      reads this
    {
      last == FLAG
    }

    /** Writes the repaired stream behind `destOffset` bytes of `dest`, whose content there is
     * not specified. The buffer is asked for once, before the first byte. */
    method Filter(dest: Data, src: Data, destOffset: nat)
      requires src.Valid() && dest.Valid() && src != dest && src.memBlock != dest.memBlock
      modifies `last, dest, dest.memBlock
      ensures dest.Valid() && (dest.memBlock == old(dest.memBlock) || fresh(dest.memBlock))
      ensures var out := Filtered(old(Closed()), old(src.Content()));
              |dest.Content()| == destOffset + |out| && dest.Content()[destOffset..] == out
      ensures Closed() == After(old(Closed()), old(src.Content()))
      ensures src.state == old(src.state)
    {
      hide BufferModel.GetBuffer, BufferModel.Poke, BufferModel.MakeSpace, Filtered, After, Pending, Written;
      var b := src.GetData();
      var needed := |b| / 2 * 3 + 4 + destOffset;
      GetBufferFits(dest.state, needed);
      dest.GetBuffer(needed);
      ghost var start := Closed();
      WorstCase(start, b);
      ghost var s, out := dest.state, [];
      NothingWritten(dest, destOffset);
      AllPending(start, b);
      var i, put := 0, destOffset;
      while i != |b|
        invariant i <= |b| && Pending(start, b, i, last == FLAG, out)
        invariant Written(dest, s, destOffset, out) && put == destOffset + |out|
        invariant dest.memBlock == old(dest.memBlock) || fresh(dest.memBlock)
      {
        if last == FLAG {
          last := 0;
          if b[i] != FLAG {
            put, out := PutNext(dest, s, destOffset, out, put, FLAG, start, b, i, true);
          } else {
            put, out := PutNext(dest, s, destOffset, out, put, b[i], start, b, i, true);
            i := i + 1;
          }
        }
        while i != |b| && b[i] != FLAG
          invariant i <= |b| && last != FLAG && Pending(start, b, i, false, out)
          invariant Written(dest, s, destOffset, out) && put == destOffset + |out|
          invariant dest.memBlock == old(dest.memBlock) || fresh(dest.memBlock)
        {
          put, out := PutNext(dest, s, destOffset, out, put, b[i], start, b, i, false);
          i := i + 1;
        }
        if i != |b| {
          put, out := PutNext(dest, s, destOffset, out, put, b[i], start, b, i, false);
          i := i + 1;
          last := FLAG;
        }
      }
      NonePending(start, b, last == FLAG, out);
      Finish(dest, s, destOffset, out, put);
    }

    /** The stream itself until the first write that begins with a flag, filtered from then on. */
    method Write(data: Data) returns (r: Data)
      requires Valid() && data.Valid() && data != writeBuf && data.memBlock != writeBuf.memBlock
      modifies this, writeBuf, writeBuf.memBlock
      ensures Valid() && data.state == old(data.state) && r.Valid()
      ensures writeBuf.memBlock == old(writeBuf.memBlock) || fresh(writeBuf.memBlock)
      ensures pppMode <==> old(pppMode) || (old(data.Content()) != [] && old(data.Content())[0] == 0x7e)
      ensures r.Content() == if pppMode then Filtered(old(Closed()), old(data.Content())) else old(data.Content())
      ensures Closed() == if pppMode then After(old(Closed()), old(data.Content())) else old(Closed())
    {
      var b := data.GetData();
      if |b| == 0 {
        return data;
      }
      if !pppMode {
        if b[0] == FLAG {
          pppMode := true;
        } else {
          return data;
        }
      }
      Filter(writeBuf, data, 0);
      r := writeBuf;
      assert writeBuf.Content()[0..] == writeBuf.Content();
    }

    /** The same into the write buffer, behind `prepend` free bytes, whatever the mode. */
    method WriteWithPrepend(data: Data, prepend: nat)
      requires Valid() && data.Valid() && data != writeBuf && data.memBlock != writeBuf.memBlock
      modifies this, writeBuf, writeBuf.memBlock
      ensures Valid() && data.state == old(data.state)
      ensures writeBuf.memBlock == old(writeBuf.memBlock) || fresh(writeBuf.memBlock)
      ensures pppMode <==> old(pppMode) || (old(data.Content()) != [] && old(data.Content())[0] == 0x7e)
      ensures Closed() == if pppMode then After(old(Closed()), old(data.Content())) else old(Closed())
      ensures var out := if pppMode then Filtered(old(Closed()), old(data.Content())) else old(data.Content());
              |writeBuf.Content()| == prepend + |out| && writeBuf.Content()[prepend..] == out
    {
      hide BufferModel.GetBuffer, BufferModel.MakeSpace, Filtered, After;
      var b := data.GetData();
      if !pppMode {
        if b != [] && b[0] == FLAG {
          pppMode := true;
        } else {
          CopyBehind(writeBuf, b, prepend);
          return;
        }
      }
      Filter(writeBuf, data, prepend);
    }
  }

  /** `b` behind `prepend` bytes that are not specified. */
  method CopyBehind(writeBuf: Data, b: seq<byte>, prepend: nat)
    requires writeBuf.Valid()
    modifies writeBuf, writeBuf.memBlock
    ensures writeBuf.Valid() && (writeBuf.memBlock == old(writeBuf.memBlock) || fresh(writeBuf.memBlock))
    ensures |writeBuf.Content()| == prepend + |b| && writeBuf.Content()[prepend..] == b
  {
    hide BufferModel.GetBuffer, BufferModel.Poke, BufferModel.MakeSpace;
    var size := |b| + prepend;
    GetBufferFits(writeBuf.state, size);
    writeBuf.GetBuffer(size);
    PokedContent(writeBuf.state, prepend, b);
    writeBuf.Poke(prepend, b);
    var ok := writeBuf.ReleaseBuffer(size);
  }

  /** A write, with or without room in front of it. */
  datatype Request = Plain(data: seq<byte>) | Behind(data: seq<byte>, prepend: nat)

  function Inputs(requests: seq<Request>): (inputs: seq<seq<byte>>)
    ensures |inputs| == |requests|
  {
    seq(|requests|, k requires 0 <= k < |requests| => requests[k].data)
  }

  /** Whether PPP has been detected in the first of these writes. */
  predicate Detected(inputs: seq<seq<byte>>) {
    exists k :: 0 <= k < |inputs| && inputs[k] != [] && inputs[k][0] == 0x7e
  }

  /** From the first write on that begins with a flag, the output of the writes is that of one stream, in which
   * every frame has its flags; what is written before passes as it is. */
  ghost predicate Repaired(inputs: seq<seq<byte>>, outs: seq<seq<byte>>, first: nat) {
    && |outs| == |inputs| && first <= |inputs| && !Detected(inputs[..first]) && outs[..first] == inputs[..first]
    && (first < |inputs| ==> inputs[first] != [] && inputs[first][0] == 0x7e)
    && Flatten(outs[first..]) == Filtered(true, Flatten(inputs[first..]))
    && Framed(Flatten(outs[first..]))
  }

  /** Any writes through a new filter, in order. */
  method Session(requests: seq<Request>) returns (outs: seq<seq<byte>>, ghost first: nat)
    ensures Repaired(Inputs(requests), outs, first)
  {
    hide Filtered, After, Framed, Buf.Content;
    var filter := new PppFilter();
    outs, first := [], 0;
    ghost var inputs := Inputs(requests);
    assert inputs[..0] == [] && inputs[0..0] == [];
    assert forall k :: 0 <= k < |requests| ==> inputs[k] == requests[k].data;
    NoFrames();
    for k := 0 to |requests|
      invariant filter.Valid() && fresh(filter) && fresh(filter.writeBuf) && fresh(filter.writeBuf.memBlock)
      invariant |outs| == k && first <= k && (filter.pppMode <==> first < k)
      invariant !Detected(inputs[..first]) && outs[..first] == inputs[..first]
      invariant first < k ==> inputs[first] != [] && inputs[first][0] == 0x7e
      invariant filter.Closed() == After(true, Flatten(inputs[first..k]))
      invariant Flatten(outs[first..]) == Filtered(true, Flatten(inputs[first..k]))
    {
      var out := Submit(filter, requests[k]);
      if filter.pppMode {
        MoreFiltered(inputs, first, k);
        FlattenSnoc(outs[first..], out);
        assert (outs + [out])[first..] == outs[first..] + [out] && (outs + [out])[..first] == outs[..first];
      } else {
        StillPlain(inputs, k);
        NothingYet(inputs, outs + [out], k + 1);
        assert outs == outs[..k] && (outs + [out])[..k + 1] == outs + [out] && inputs[..k + 1] == inputs[..k] + [out];
        first := k + 1;
      }
      outs := outs + [out];
    }
    UpToEnd(inputs, first);
    OutputIsFramed(Flatten(inputs[first..]));
  }

  lemma UpToEnd(inputs: seq<seq<byte>>, first: nat)
    requires first <= |inputs|
    ensures inputs[first..] == inputs[first..|inputs|]
  {
  }

  /** One write through the filter; what is behind the free bytes is returned. */
  method Submit(filter: PppFilter, request: Request) returns (out: seq<byte>)
    requires filter.Valid()
    modifies filter, filter.writeBuf, filter.writeBuf.memBlock
    ensures filter.Valid()
    ensures filter.writeBuf.memBlock == old(filter.writeBuf.memBlock) || fresh(filter.writeBuf.memBlock)
    ensures filter.pppMode <==> old(filter.pppMode) || (request.data != [] && request.data[0] == 0x7e)
    ensures out == if filter.pppMode then Filtered(old(filter.Closed()), request.data) else request.data
    ensures filter.Closed() == if filter.pppMode then After(old(filter.Closed()), request.data)
                               else old(filter.Closed())
  {
    hide Filtered, After;
    var data := new Data.External(request.data);
    assert data.Content() == request.data;
    match request {
      case Plain(_) =>
        var r := filter.Write(data);
        out := r.GetData();
      case Behind(_, prepend) =>
        filter.WriteWithPrepend(data, prepend);
        var all := filter.writeBuf.GetData();
        out := all[prepend..];
    }
  }

  lemma NoFrames()
    ensures Filtered(true, Flatten([])) == [] && After(true, Flatten([])) && Flatten<byte>([]) == []
  {
  }

  lemma MoreFiltered(inputs: seq<seq<byte>>, first: nat, k: nat)
    requires first <= k < |inputs|
    ensures var so, all := Flatten(inputs[first..k]), Flatten(inputs[first..k + 1]);
            && Filtered(true, all) == Filtered(true, so) + Filtered(After(true, so), inputs[k])
            && After(true, all) == After(After(true, so), inputs[k])
  {
    hide Filtered, After;
    assert inputs[first..k + 1] == inputs[first..k] + [inputs[k]];
    FlattenSnoc(inputs[first..k], inputs[k]);
    FilteredAppend(true, Flatten(inputs[first..k]), inputs[k]);
  }

  lemma StillPlain(inputs: seq<seq<byte>>, k: nat)
    requires k < |inputs| && !Detected(inputs[..k]) && (inputs[k] == [] || inputs[k][0] != 0x7e)
    ensures !Detected(inputs[..k + 1])
  {
    var more := inputs[..k + 1];
    forall i | 0 <= i < |more| ensures more[i] == [] || more[i][0] != 0x7e {
      assert i < k ==> inputs[..k][i] == more[i];
    }
  }

  lemma NothingYet(inputs: seq<seq<byte>>, outs: seq<seq<byte>>, k: nat)
    requires k == |outs| <= |inputs|
    ensures outs[k..] == [] && inputs[k..k] == [] && Flatten<byte>([]) == [] && Filtered(true, []) == []
    ensures After(true, [])
  {
  }

  /** `out` has been written at `destOffset` into the buffer `s`. */
  ghost predicate Written(dest: Data, s: Buf, destOffset: nat, out: seq<byte>)
    reads dest, dest.memBlock
  {
    && dest.Valid() && s.Valid() && !s.external && destOffset + |out| <= s.BufSize()
    && dest.state == BufferModel.Poke(s, destOffset, out)
  }

  method PutByte(dest: Data, ghost s: Buf, ghost destOffset: nat, ghost out: seq<byte>, put: nat, x: byte)
    requires Written(dest, s, destOffset, out) && put == destOffset + |out|
    requires s.Valid() && put < s.BufSize()
    modifies dest, dest.memBlock
    ensures dest.memBlock == old(dest.memBlock)
    ensures Written(dest, s, destOffset, out + [x])
  {
    PokeWrites(s, destOffset, out);
    PokeTwice(s, destOffset, out, x);
    dest.Poke(put, [x]);
  }

  /** The next byte of the output goes to the write pointer. */
  method PutNext(dest: Data, ghost s: Buf, ghost destOffset: nat, ghost out: seq<byte>, put: nat, x: byte,
                 ghost start: bool, ghost b: seq<byte>, ghost i: nat, ghost closed: bool)
    returns (next: nat, ghost more: seq<byte>)
    requires i < |b| && Pending(start, b, i, closed, out)
    requires x == if closed && b[i] != FLAG then FLAG else b[i]
    requires Written(dest, s, destOffset, out) && put == destOffset + |out|
    requires s.Valid() && destOffset + |Filtered(start, b)| <= s.BufSize()
    modifies dest, dest.memBlock
    ensures dest.memBlock == old(dest.memBlock)
    ensures Written(dest, s, destOffset, more) && next == destOffset + |more|
    ensures if closed && b[i] != FLAG then Pending(start, b, i, false, more)
            else Pending(start, b, i + 1, Next(closed, b[i]), more)
  {
    hide Pending, Filtered, Written;
    Advance(start, b, i, closed, out);
    PutByte(dest, s, destOffset, out, put, x);
    next, more := put + 1, out + [x];
  }

  lemma NothingWritten(dest: Data, destOffset: nat)
    requires dest.Valid() && !dest.state.external && destOffset <= dest.state.BufSize()
    ensures Written(dest, dest.state, destOffset, [])
  {
    assert BufferModel.Poke(dest.state, destOffset, []).block == dest.state.block;
  }

  method Finish(dest: Data, ghost s: Buf, ghost destOffset: nat, ghost out: seq<byte>, put: nat)
    requires Written(dest, s, destOffset, out) && put == destOffset + |out|
    modifies dest
    ensures dest.Valid() && dest.memBlock == old(dest.memBlock)
    ensures |dest.Content()| == destOffset + |out| && dest.Content()[destOffset..] == out
  {
    PokedContent(s, destOffset, out);
    var ok := dest.ReleaseBuffer(put);
  }

  lemma PokeTwice(s: Buf, destOffset: nat, out: seq<byte>, x: byte)
    requires s.Valid() && !s.external && destOffset + |out| < s.BufSize()
    ensures var m := BufferModel.Poke(s, destOffset, out);
            m.Valid() && BufferModel.Poke(m, destOffset + |out|, [x]) == BufferModel.Poke(s, destOffset, out + [x])
  {
    var m := BufferModel.Poke(s, destOffset, out);
    assert BufferModel.Poke(m, destOffset + |out|, [x]).block == BufferModel.Poke(s, destOffset, out + [x]).block;
  }

  lemma PokedContent(s: Buf, destOffset: nat, out: seq<byte>)
    requires s.Valid() && !s.external && destOffset + |out| <= s.BufSize()
    ensures var r := BufferModel.Poke(s, destOffset, out).(size := destOffset + |out|);
            && r.Valid() && |r.Content()| == destOffset + |out| && r.Content()[destOffset..] == out
            && BufferModel.Poke(s, destOffset, out).Valid()
            && CanRelease(BufferModel.Poke(s, destOffset, out), destOffset + |out|)
  {
  }

  /** `out` has been written for the first i bytes of `b`; the state is now `closed`. */
  ghost predicate Pending(start: bool, b: seq<byte>, i: nat, closed: bool, out: seq<byte>)
    requires i <= |b|
  {
    && out + Filtered(closed, b[i..]) == Filtered(start, b)
    && After(closed, b[i..]) == After(start, b)
  }

  lemma AllPending(start: bool, b: seq<byte>)
    ensures Pending(start, b, 0, start, [])
  {
    assert b[0..] == b;
  }

  lemma NonePending(start: bool, b: seq<byte>, closed: bool, out: seq<byte>)
    requires Pending(start, b, |b|, closed, out)
    ensures out == Filtered(start, b) && closed == After(start, b)
  {
    assert out + [] == out;
  }

  /** The next byte to write: a missing flag, or the next byte of the input. */
  lemma Advance(start: bool, b: seq<byte>, i: nat, closed: bool, out: seq<byte>)
    requires i < |b| && Pending(start, b, i, closed, out)
    ensures |out| < |Filtered(start, b)|
    ensures if closed && b[i] != FLAG then Pending(start, b, i, false, out + [FLAG])
            else Pending(start, b, i + 1, Next(closed, b[i]), out + [b[i]])
  {
    hide Filtered, After;
    StepAt(closed, b, i);
    if closed && b[i] != FLAG {
      StepAt(false, b, i);
      var rest := Filtered(false, b[i + 1..]);
      assert out + ([FLAG, b[i]] + rest) == out + [FLAG] + ([b[i]] + rest);
    } else {
      var rest := Filtered(Next(closed, b[i]), b[i + 1..]);
      assert out + ([b[i]] + rest) == out + [b[i]] + rest;
    }
  }

  lemma StepAt(closed: bool, b: seq<byte>, i: nat)
    requires i < |b|
    ensures Filtered(closed, b[i..]) == PppTransducer.Emit(closed, b[i]) + Filtered(Next(closed, b[i]), b[i + 1..])
    ensures After(closed, b[i..]) == After(Next(closed, b[i]), b[i + 1..])
  {
    assert b[i..][1..] == b[i + 1..];
  }
}
