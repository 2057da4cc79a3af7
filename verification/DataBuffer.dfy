/** `Data`: the byte buffer with prepend space and copy-on-write external memory. */
module DataBuffer {
  import opened Bytes
  import opened BufferModel
  import opened BufferRefinement

  /** The source is read in full before the first byte is written, so it may lie in `block`. */
  method MemMove(block: array<byte>, at: nat, src: seq<byte>)
    requires at + |src| <= block.Length
    modifies block
    ensures block[..] == Splice(old(block[..]), at, src)
  {
    forall i | 0 <= i < |src| {
      block[at + i] := src[i];
    }
  }

  class Data {
    var memBlock: array<byte>
    var dataStart: nat
    var dataSize: nat
    var externalData: seq<byte>
    var external: bool
    var endpoint: int

    /** The whole state as a value. */
    ghost var state: Buf

    ghost predicate Valid()
      reads this, memBlock
    {
      && state.Valid()
      && memBlock[..] == state.block
      && dataStart == state.start && dataSize == state.size
      && external == state.external && externalData == state.ext
    }

    ghost function Content(): seq<byte>
      requires Valid()
      reads this, memBlock
    {
      state.Content()
    }

    /** Memory of this object is its own: kept, or allocated by the call. */
    constructor (endpoint: int := -1, startSize: nat := DEFAULT_SIZE, prependSize: nat := DEFAULT_PREPEND)
      ensures Valid() && fresh(memBlock)
      ensures state == Buf(Zeros(startSize + prependSize), prependSize, 0, false, [])
      ensures this.endpoint == endpoint
    {
      memBlock := new byte[startSize + prependSize](_ => 0);
      dataStart, dataSize := prependSize, 0;
      externalData, external := [], false;
      this.endpoint := endpoint;
      state := Buf(Zeros(startSize + prependSize), prependSize, 0, false, []);
    }

    /** Points at read-only memory; no block of its own until the first write. */
    constructor External(validData: seq<byte>)
      ensures Valid() && fresh(memBlock)
      ensures state == Buf([], 0, |validData|, true, validData)
    {
      memBlock := new byte[0];
      dataStart, dataSize := 0, |validData|;
      externalData, external := validData, true;
      endpoint := -1;
      state := Buf([], 0, |validData|, true, validData);
    }

    constructor Copy(other: Data)
      requires other.Valid()
      ensures Valid() && fresh(memBlock)
      ensures state == Copied(other.state) && endpoint == other.endpoint
      ensures !other.external ==> state == other.state
      ensures other.external ==> external && externalData == other.externalData && dataSize == other.dataSize
    {
      memBlock := new byte[other.memBlock.Length](_ => 0);
      dataStart := if other.external then 0 else other.dataStart;
      dataSize := other.dataSize;
      externalData, external := other.externalData, other.external;
      endpoint := other.endpoint;
      state := Copied(other.state);
      new;
      if !external {
        forall k | 0 <= k < memBlock.Length {
          memBlock[k] := other.memBlock[k];
        }
      }
    }

    /** What GetData and GetSize give a reader. */
    method GetData() returns (s: seq<byte>)
      requires Valid()
      ensures s == Content()
    {
      s := if external then externalData[..dataSize] else memBlock[dataStart..dataStart + dataSize];
    }

    method AvailablePrependSpace() returns (n: nat)
      requires Valid()
      ensures n == state.Avail()
    {
      n := if external then 0 else dataStart;
    }

    method GetBufSize() returns (n: nat)
      requires Valid()
      ensures n == state.BufSize()
    {
      n := if external then 0 else memBlock.Length - dataStart;
    }

    /** Moves the data to `prepend` in a block of at least `need` bytes: the present one if
     * it is large enough, otherwise a zeroed new one. */
    method Relocate(prepend: nat, need: nat)
      requires Valid() && prepend + dataSize <= need
      modifies this, memBlock
      ensures Valid() && (memBlock == old(memBlock) || fresh(memBlock))
      ensures state == Relocated(old(state), prepend, need) && endpoint == old(endpoint)
    {
      hide Splice, Buf.Content;
      var block := memBlock;
      if memBlock.Length < need {
        block := new byte[need](_ => 0);
        assert block[..] == Zeros(need);
      }
      RelocatedKeeps(state, prepend, need);
      ContentSize(state);
      var source := GetData();
      MemMove(block, prepend, source);
      external := false;
      memBlock := block;
      dataStart := prepend;
      state := Relocated(state, prepend, need);
    }

    method MakeSpace(want: nat, wantPrepend: nat := 0)
      requires Valid()
      modifies this, memBlock
      ensures Valid() && (memBlock == old(memBlock) || fresh(memBlock))
      ensures state == BufferModel.MakeSpace(old(state), want, wantPrepend)
      ensures endpoint == old(endpoint)
    {
      ghost var s := state;
      MakeSpaceFits(s, want, wantPrepend);
      var avail := AvailablePrependSpace();
      var prepend := Max(avail, wantPrepend);
      if prepend == 0 {
        prepend := 0x100;
      }
      var bufSize := GetBufSize();
      if bufSize < want + prepend || (wantPrepend > 0 && avail < wantPrepend) {
        var need := want + SLACK + prepend;
        if need < dataSize + prepend {
          need := dataSize + prepend;
        }
        assert prepend == PrependFor(s, wantPrepend) && need == NewSize(s, want, wantPrepend);
        Relocate(prepend, need);
      }
    }

    /** Room for `required` bytes at the data start; zero asks for the current size. */
    method GetBuffer(required: nat := 0)
      requires Valid()
      modifies this, memBlock
      ensures Valid() && (memBlock == old(memBlock) || fresh(memBlock))
      ensures state == BufferModel.GetBuffer(old(state), required)
      ensures endpoint == old(endpoint)
    {
      MakeSpace(if required == 0 then dataSize else required);
    }

    /** memcpy to the pointer that GetBuffer returned, plus `at`. */
    method Poke(at: nat, src: seq<byte>)
      requires Valid() && !external && at + |src| <= state.BufSize()
      modifies memBlock, `state
      ensures Valid() && state == BufferModel.Poke(old(state), at, src)
    {
      MemMove(memBlock, dataStart + at, src);
      state := BufferModel.Poke(state, at, src);
    }

    /** A memcpy to the buffer pointer, after which the data ends at `end`. */
    method PokeTo(at: nat, src: seq<byte>, end: nat)
      requires Valid() && !external && at + |src| <= state.BufSize() && end <= state.BufSize()
      modifies memBlock, `state, `dataSize
      ensures Valid() && state == BufferModel.PokeTo(old(state), at, src, end)
    {
      PokeWrites(state, at, src);
      Poke(at, src);
      dataSize := end;
      state := state.(size := end);
    }

    /** False where the C++ method throws. */
    method ReleaseBuffer(size: nat) returns (ok: bool)
      requires Valid()
      modifies `dataSize, `state
      ensures ok <==> !external && size <= memBlock.Length - dataStart
      ensures state == if ok then old(state).(size := size) else old(state)
      ensures Valid()
    {
      var bufSize := GetBufSize();
      ok := !external && size <= bufSize;
      if ok {
        dataSize := size;
        state := state.(size := size);
      }
    }

    /** ReleaseBuffer(-1): the data then ends in front of the last byte of the buffer that is not zero, which is
     * not part of it; in a buffer without such a byte it is empty. */
    method ReleaseToLastByte() returns (ok: bool)
      requires Valid() && (!external ==> dataStart < memBlock.Length)
      modifies `dataSize, `state
      ensures Valid()
      ensures ok <==> !external
      ensures state == if ok then old(state).(size := dataSize) else old(state)
      ensures ok ==> dataStart + dataSize < memBlock.Length
      ensures ok ==> dataSize == 0 || memBlock[dataStart + dataSize] != 0
      ensures ok ==> forall i :: dataStart + dataSize < i < memBlock.Length ==> memBlock[i] == 0
    {
      ok := !external;
      if ok {
        var bufSize := GetBufSize();
        var size := bufSize - 1;
        while size > 0 && memBlock[dataStart + size] == 0
          invariant 0 <= size < bufSize
          invariant forall i :: dataStart + size < i < memBlock.Length ==> memBlock[i] == 0
        {
          size := size - 1;
        }
        dataSize := size;
        state := state.(size := size);
      }
    }

    method QuickZap()
      requires Valid()
      modifies `dataSize, `state
      ensures Valid() && state == old(state).(size := 0)
    {
      dataSize := 0;
      state := state.(size := 0);
    }

    method Zap()
      requires Valid()
      modifies this, memBlock
      ensures Valid() && memBlock == old(memBlock)
      ensures state == BufferModel.Zap(old(state)) && endpoint == old(endpoint)
    {
      if !external {
        forall k | 0 <= k < memBlock.Length {
          memBlock[k] := 0;
        }
      }
      dataSize := 0;
      state := BufferModel.Zap(state);
    }

    method Assign(other: Data)
      requires Valid() && other.Valid() && (other == this || other.memBlock != memBlock)
      modifies this, memBlock
      ensures Valid() && (memBlock == old(memBlock) || fresh(memBlock))
      ensures other == this ==> state == old(state)
      ensures other != this ==> other.state == old(other.state)
      ensures other != this ==> state == BufferModel.Assign(old(state), old(other.state))
      ensures other != this && other.external ==> external && externalData == other.externalData
      ensures endpoint == old(other.endpoint)
    {
      hide BufferModel.MakeSpace, BufferModel.Poke;
      if other == this {
        return;
      }
      if other.external {
        externalData, external := other.externalData, true;
        dataSize := other.dataSize;
        state := BufferModel.Assign(state, other.state);
      } else {
        MakeSpaceFits(state, other.dataSize, 0);
        MakeSpace(other.dataSize);
        var source := other.GetData();
        PokeTo(0, source, other.dataSize);
      }
      endpoint := other.endpoint;
    }

    /** Returns the advanced offset. */
    method MemCpy(offset: nat, src: seq<byte>) returns (next: nat)
      requires Valid()
      modifies this, memBlock
      ensures Valid() && (memBlock == old(memBlock) || fresh(memBlock))
      ensures state == BufferModel.MemCpy(old(state), offset, src)
      ensures next == offset + |src| && endpoint == old(endpoint)
    {
      GetBufferFits(state, offset + |src|);
      GetBuffer(offset + |src|);
      next := offset + |src|;
      PokeTo(offset, src, Max(dataSize, next));
    }

    /** The C++ code passes m_dataSize itself as the offset that MemCpy advances. */
    method Append(src: seq<byte>)
      requires Valid()
      modifies this, memBlock
      ensures Valid() && (memBlock == old(memBlock) || fresh(memBlock))
      ensures state == BufferModel.Append(old(state), src)
      ensures Content() == old(Content()) + src && endpoint == old(endpoint)
    {
      AppendRefines(state, src);
      dataSize := MemCpy(dataSize, src);
    }

    method Prepend(src: seq<byte>)
      requires Valid()
      modifies this, memBlock
      ensures Valid() && (memBlock == old(memBlock) || fresh(memBlock))
      ensures state == BufferModel.Prepend(old(state), src)
      ensures Content() == src + old(Content()) && endpoint == old(endpoint)
    {
      hide BufferModel.MakeSpace, Splice, Buf.Content;
      PrependRefines(state, src);
      MakeSpaceFits(state, 0, |src|);
      MakeSpace(0, |src|);
      dataStart := dataStart - |src|;
      dataSize := dataSize + |src|;
      state := state.(start := dataStart, size := dataSize);
      Poke(0, src);
    }

    method Prechop(n: nat)
      requires Valid()
      modifies `dataStart, `dataSize, `externalData, `state
      ensures Valid() && state == BufferModel.Prechop(old(state), n)
    {
      if n >= dataSize {
        QuickZap();
      } else {
        if external {
          externalData := externalData[n..];
        } else {
          dataStart := dataStart + n;
        }
        dataSize := dataSize - n;
        state := BufferModel.Prechop(state, n);
      }
    }
  }

  /** Something done to a Data object. */
  datatype Act =
    | ActAppend(src: seq<byte>)
    | ActPrepend(src: seq<byte>)
    | ActPrechop(n: nat)
    | ActMemCpy(offset: nat, src: seq<byte>)
    | ActGetBuffer(n: nat)
    | ActAssign(other: Data)
    | ActZap
    | ActQuickZap

  ghost function OpOf(a: Act): Op
    reads if a.ActAssign? then {a.other} else {}
  {
    match a
    case ActAppend(src) => OpAppend(src)
    case ActPrepend(src) => OpPrepend(src)
    case ActPrechop(n) => OpPrechop(n)
    case ActMemCpy(offset, src) => OpMemCpy(offset, src)
    case ActGetBuffer(n) => OpGetBuffer(n)
    case ActAssign(other) => OpAssign(other.state)
    case ActZap => OpZap
    case ActQuickZap => OpQuickZap
  }

  method Perform(d: Data, a: Act)
    requires d.Valid()
    requires a.ActAssign? ==> a.other.Valid() && a.other != d && a.other.memBlock != d.memBlock
    modifies d, d.memBlock
    ensures d.Valid() && (d.memBlock == old(d.memBlock) || fresh(d.memBlock))
    ensures d.state == Do(old(d.state), old(OpOf(a)))
  {
    hide BufferModel.MakeSpace, BufferModel.Poke, BufferModel.MemCpy, BufferModel.Prepend, BufferModel.Prechop;
    match a {
      case ActAppend(src) => d.Append(src);
      case ActPrepend(src) => d.Prepend(src);
      case ActPrechop(n) => d.Prechop(n);
      case ActMemCpy(offset, src) => var next := d.MemCpy(offset, src);
      case ActGetBuffer(n) => d.GetBuffer(n);
      case ActAssign(other) => d.Assign(other);
      case ActZap => d.Zap();
      case ActQuickZap => d.QuickZap();
    }
  }

  /** The operations, with what the assigned objects hold now. */
  ghost function OpsOf(acts: seq<Act>): seq<Op>
    reads set a | a in acts && a.ActAssign? :: a.other
  {
    seq(|acts|, i requires 0 <= i < |acts| reads set a | a in acts && a.ActAssign? :: a.other => OpOf(acts[i]))
  }

  /** A copy shares no writable memory with its source: whatever is then done to the copy, even assigning the
   * source to it, the source keeps its state and the copy has the bytes the operations mean. */
  method MutateACopy(source: Data, acts: seq<Act>) returns (copy: Data)
    requires source.Valid()
    requires forall a :: a in acts && a.ActAssign? ==> a.other.Valid()
    requires LegalRun(source.Content(), OpsOf(acts))
    ensures fresh(copy) && copy.Valid()
    ensures source.Valid() && source.state == old(source.state)
    ensures OpsOf(acts) == old(OpsOf(acts))
    ensures copy.Content() == MeaningOfRun(old(source.Content()), old(OpsOf(acts)))
  {
    ghost var ops := OpsOf(acts);
    copy := new Data.Copy(source);
    for i := 0 to |acts|
      invariant copy.Valid() && fresh(copy) && fresh(copy.memBlock)
      invariant LegalRun(copy.Content(), ops[i..])
      invariant MeaningOfRun(copy.Content(), ops[i..]) == MeaningOfRun(old(source.Content()), ops)
    {
      hide Do, Meaning, Legal;
      assert acts[i] in acts && ops[i] == OpOf(acts[i]);
      assert ops[i..][0] == ops[i] && ops[i..][1..] == ops[i + 1..];
      StepRefines(copy.state, ops[i]);
      Perform(copy, acts[i]);
    }
  }
}
