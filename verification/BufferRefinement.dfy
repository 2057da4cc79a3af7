/** `Data` behaves as the plain byte string `Content()`, whatever mix of internal,
 * external and reused memory is behind it. */
module BufferRefinement {
  import opened Bytes
  import opened BufferModel

  // ------------------------------------------------- one operation at a time

  /** Writing through the buffer pointer changes the written range of the block and no other byte. */
  lemma PokeWrites(s: Buf, at: nat, src: seq<byte>)
    requires s.Valid() && !s.external && at + |src| <= s.BufSize()
    ensures var r := Poke(s, at, src); var k := s.start + at;
            && r.Valid() && |r.block| == |s.block|
            && (forall i :: 0 <= i < |src| ==> r.block[k + i] == src[i])
            && (forall j :: 0 <= j < |s.block| && !(k <= j < k + |src|) ==> r.block[j] == s.block[j])
  {
  }

  lemma PokeAt(m: Buf, offset: nat, src: seq<byte>, k: nat)
    requires m.Valid() && !m.external && offset + |src| <= m.BufSize()
    requires k < Max(m.size, offset + |src|)
    ensures var r := Poke(m, offset, src).(size := Max(m.size, offset + |src|));
            && r.Valid()
            && (offset <= k < offset + |src| ==> r.Content()[k] == src[k - offset])
            && (k < m.size && !(offset <= k < offset + |src|) ==> r.Content()[k] == m.Content()[k])
  {
    PokeWrites(m, offset, src);
    var r := Poke(m, offset, src).(size := Max(m.size, offset + |src|));
    assert r.Content()[k] == r.block[m.start + k];
    if offset <= k < offset + |src| {
      assert r.block[m.start + offset + (k - offset)] == src[k - offset];
    }
  }

  /** Byte k after a MemCpy: from `src` inside the written range, otherwise unchanged. */
  lemma MemCpyAt(s: Buf, offset: nat, src: seq<byte>, k: nat)
    requires s.Valid() && k < Max(s.size, offset + |src|)
    ensures MemCpy(s, offset, src).Valid()
    ensures offset <= k < offset + |src| ==> MemCpy(s, offset, src).Content()[k] == src[k - offset]
    ensures !(offset <= k < offset + |src|) && k < s.size ==>
              MemCpy(s, offset, src).Content()[k] == s.Content()[k]
  {
    hide GetBuffer, Poke, Buf.Content, Buf.Valid;
    GetBufferFits(s, offset + |src|);
    PokeAt(GetBuffer(s, offset + |src|), offset, src, k);
  }

  /** MemCpy at any offset: what is in front and behind stays, `src` is in between. Only
   * the bytes between the old end and an offset past it are unspecified. */
  lemma MemCpyContent(s: Buf, offset: nat, src: seq<byte>)
    requires s.Valid()
    ensures var r := MemCpy(s, offset, src); var c := s.Content();
            && r.Valid() && !r.external
            && |r.Content()| == Max(|c|, offset + |src|)
            && (forall k :: offset <= k < offset + |src| ==> r.Content()[k] == src[k - offset])
            && (forall k :: 0 <= k < |c| && !(offset <= k < offset + |src|) ==> r.Content()[k] == c[k])
  {
    hide GetBuffer, Splice;
    GetBufferFits(s, offset + |src|);
    PokeWrites(GetBuffer(s, offset + |src|), offset, src);
    forall k: nat | k < Max(s.size, offset + |src|)
      ensures offset <= k < offset + |src| ==> MemCpy(s, offset, src).Content()[k] == src[k - offset]
      ensures k < s.size && !(offset <= k < offset + |src|) ==>
                MemCpy(s, offset, src).Content()[k] == s.Content()[k]
    {
      MemCpyAt(s, offset, src, k);
    }
  }

  /** The byte-string meaning of MemCpy at an offset inside the data. */
  function Overwrite(c: seq<byte>, offset: nat, src: seq<byte>): seq<byte>
    requires offset <= |c|
  {
    c[..offset] + src + (if offset + |src| < |c| then c[offset + |src|..] else [])
  }

  lemma MemCpyRefines(s: Buf, offset: nat, src: seq<byte>)
    requires s.Valid() && offset <= s.size
    ensures MemCpy(s, offset, src).Valid()
    ensures MemCpy(s, offset, src).Content() == Overwrite(s.Content(), offset, src)
  {
    hide MemCpy, Buf.Content, Buf.Valid;
    MemCpyContent(s, offset, src);
    ContentSize(s);
    var r, o := MemCpy(s, offset, src).Content(), Overwrite(s.Content(), offset, src);
    OverwriteAt(s.Content(), offset, src);
    assert |r| == |o|;
    forall k | 0 <= k < |r| ensures r[k] == o[k] {
    }
  }

  lemma ContentSize(s: Buf)
    requires s.Valid()
    ensures |s.Content()| == s.size
  {
  }

  lemma OverwriteAt(c: seq<byte>, offset: nat, src: seq<byte>)
    requires offset <= |c|
    ensures var o := Overwrite(c, offset, src);
            && |o| == Max(|c|, offset + |src|)
            && (forall k :: offset <= k < offset + |src| ==> o[k] == src[k - offset])
            && (forall k :: 0 <= k < |c| && !(offset <= k < offset + |src|) ==> o[k] == c[k])
  {
  }

  lemma AppendRefines(s: Buf, src: seq<byte>)
    requires s.Valid()
    ensures Append(s, src).Valid() && Append(s, src).Content() == s.Content() + src
  {
    MemCpyRefines(s, s.size, src);
    assert s.Content()[..s.size] == s.Content();
  }

  lemma PokeInFront(m: Buf, src: seq<byte>)
    requires m.Valid() && !m.external && m.start >= |src|
    ensures var r := Poke(m.(start := m.start - |src|, size := m.size + |src|), 0, src);
            r.Valid() && r.Content() == src + m.Content()
  {
    hide Splice;
    var at, end := m.start - |src|, m.start + m.size;
    var b := Splice(m.block, at, src);
    SpliceReads(m.block, at, src);
    assert b[at..end] == b[at..m.start] + b[m.start..end];
    DropSlice(b, m.start, 0, m.size);
    DropSlice(m.block, m.start, 0, m.size);
  }

  lemma PrependRefines(s: Buf, src: seq<byte>)
    requires s.Valid()
    ensures Prepend(s, src).Valid() && Prepend(s, src).Content() == src + s.Content()
  {
    MakeSpaceFits(s, 0, |src|);
    PokeInFront(MakeSpace(s, 0, |src|), src);
  }

  lemma PrechopRefines(s: Buf, n: nat)
    requires s.Valid()
    ensures Prechop(s, n).Valid()
    ensures Prechop(s, n).Content() == s.Content()[if n < s.size then n else s.size..]
  {
  }

  /** What is chopped off in front can be used again in front; nothing is moved. */
  lemma PrechopMakesRoom(s: Buf, n: nat)
    requires s.Valid() && !s.external && n < s.size
    ensures var r := Prechop(s, n); r.block == s.block && r.Avail() == s.Avail() + n
  {
  }

  /** After Zap no byte of an own block is left, whatever room is asked for and released; external memory is not
   * touched. */
  lemma ZapClears(s: Buf, want: nat)
    requires s.Valid()
    ensures Zap(s).Valid() && Zap(s).size == 0 && Zap(s).start == s.start && Zap(s).ext == s.ext
    ensures !s.external ==> |Zap(s).block| == |s.block| && forall i :: 0 <= i < |s.block| ==> Zap(s).block[i] == 0
    ensures s.external ==> Zap(s).external && Zap(s).block == s.block
    ensures GetBuffer(Zap(s), want).Valid() && CanRelease(GetBuffer(Zap(s), want), want)
    ensures !s.external ==> GetBuffer(Zap(s), want).(size := want).Content() == Zeros(want)
  {
    hide Splice;
    var z := Zap(s);
    GetBufferFits(z, want);
    var g := GetBuffer(z, want);
    if !s.external {
      forall i | 0 <= i < |g.block| ensures g.block[i] == 0 {
        RelocatedZeros(z, PrependFor(z, 0), NewSize(z, if want == 0 then 0 else want, 0), i);
      }
    }
  }

  lemma RelocatedZeros(s: Buf, prepend: nat, need: nat, i: nat)
    requires s.Valid() && s.size == 0 && prepend <= need && i < Max(|s.block|, need)
    requires forall k :: 0 <= k < |s.block| ==> s.block[k] == 0
    ensures i < |Relocated(s, prepend, need).block| && Relocated(s, prepend, need).block[i] == 0
  {
  }

  lemma AssignRefines(s: Buf, other: Buf)
    requires s.Valid() && other.Valid()
    ensures Assign(s, other).Valid() && Assign(s, other).Content() == other.Content()
  {
    hide MakeSpace;
    MakeSpaceFits(s, other.size, 0);
    if !other.external {
      PokeAll(MakeSpace(s, other.size, 0), other.Content());
    }
  }

  lemma PokeAll(m: Buf, src: seq<byte>)
    requires m.Valid() && !m.external && |src| <= m.BufSize()
    ensures PokeTo(m, 0, src, |src|).Valid() && PokeTo(m, 0, src, |src|).Content() == src
  {
    SpliceReads(m.block, m.start, src);
  }

  // ----------------------------------------------------------- whole programs

  datatype Op =
    | OpAppend(src: seq<byte>)
    | OpPrepend(src: seq<byte>)
    | OpPrechop(n: nat)
    | OpMemCpy(offset: nat, src: seq<byte>)
    | OpGetBuffer(n: nat)
    | OpAssign(other: Buf)
    | OpCopy
    | OpZap
    | OpQuickZap

  function Do(s: Buf, op: Op): (r: Buf)
    requires s.Valid() && (op.OpAssign? ==> op.other.Valid())
  {
    match op
    case OpAppend(src) => Append(s, src)
    case OpPrepend(src) => Prepend(s, src)
    case OpPrechop(n) => Prechop(s, n)
    case OpMemCpy(offset, src) => MemCpy(s, offset, src)
    case OpGetBuffer(n) => GetBuffer(s, n)
    case OpAssign(other) => Assign(s, other)
    case OpCopy => Copied(s)
    case OpZap => Zap(s)
    case OpQuickZap => s.(size := 0)
  }

  predicate Legal(c: seq<byte>, op: Op) {
    && (op.OpMemCpy? ==> op.offset <= |c|)
    && (op.OpAssign? ==> op.other.Valid())
  }

  function Meaning(c: seq<byte>, op: Op): seq<byte>
    requires Legal(c, op)
  {
    match op
    case OpAppend(src) => c + src
    case OpPrepend(src) => src + c
    case OpPrechop(n) => if n < |c| then c[n..] else []
    case OpMemCpy(offset, src) => Overwrite(c, offset, src)
    case OpGetBuffer(_) => c
    case OpAssign(other) => other.Content()
    case OpCopy => c
    case OpZap => []
    case OpQuickZap => []
  }

  lemma StepRefines(s: Buf, op: Op)
    requires s.Valid() && Legal(s.Content(), op)
    ensures Do(s, op).Valid() && Do(s, op).Content() == Meaning(s.Content(), op)
  {
    match op
    case OpAppend(src) => AppendRefines(s, src);
    case OpPrepend(src) => PrependRefines(s, src);
    case OpPrechop(n) => PrechopRefines(s, n);
    case OpMemCpy(offset, src) => MemCpyRefines(s, offset, src);
    case OpGetBuffer(n) => GetBufferFits(s, n);
    case OpAssign(other) => AssignRefines(s, other);
    case OpCopy =>
    case OpZap =>
    case OpQuickZap =>
  }

  predicate LegalRun(c: seq<byte>, ops: seq<Op>)
    decreases |ops|
  {
    ops == [] || (Legal(c, ops[0]) && LegalRun(Meaning(c, ops[0]), ops[1..]))
  }

  function MeaningOfRun(c: seq<byte>, ops: seq<Op>): seq<byte>
    requires LegalRun(c, ops)
    decreases |ops|
  {
    if ops == [] then c else MeaningOfRun(Meaning(c, ops[0]), ops[1..])
  }

  function Run(s: Buf, ops: seq<Op>): Buf
    requires s.Valid() && LegalRun(s.Content(), ops)
    decreases |ops|
  {
    if ops == [] then s else
      StepRefines(s, ops[0]);
      Run(Do(s, ops[0]), ops[1..])
  }

  /** Any sequence of operations, from any state, acts on the content as on a byte string,
   * and the data never leaves the memory block. */
  lemma {:induction false} RunRefines(s: Buf, ops: seq<Op>)
    requires s.Valid() && LegalRun(s.Content(), ops)
    ensures Run(s, ops).Valid() && Run(s, ops).Content() == MeaningOfRun(s.Content(), ops)
    decreases |ops|
  {
    if ops != [] {
      StepRefines(s, ops[0]);
      RunRefines(Do(s, ops[0]), ops[1..]);
    }
  }

  // ------------------------------------------------ asking for a buffer again

  /** Asking for `want` bytes changes nothing at all: no move, no loss. */
  predicate Settled(s: Buf, want: nat)
    requires s.Valid()
  {
    && !s.external
    && (!MustMove(s, want, 0) || (s.start > 0 && |s.block| >= NewSize(s, want, 0)))
  }

  lemma SettledExactly(s: Buf, want: nat)
    requires s.Valid()
    ensures Settled(s, want) <==> MakeSpace(s, want, 0) == s
  {
    if MustMove(s, want, 0) && !s.external && |s.block| >= NewSize(s, want, 0) && s.start > 0 {
      var b := s.block;
      assert b == b[..s.start] + b[s.start..s.start + s.size] + b[s.start + s.size..];
    }
  }

  lemma SettledBelow(s: Buf, want: nat, less: nat)
    requires s.Valid() && Settled(s, want) && less <= want
    ensures Settled(s, less)
  {
  }

  /** After one request, any request that is not larger finds the same block at the same
   * start with every byte in place, also those past the data size. */
  lemma RequestSettles(s: Buf, want: nat, less: nat)
    requires s.Valid() && less <= want
    ensures var r := MakeSpace(s, want, 0); r.Valid() && MakeSpace(r, less, 0) == r
  {
    var r := MakeSpace(s, want, 0);
    MakeSpaceFits(s, want, 0);
    assert Settled(r, want);
    SettledBelow(r, want, less);
    SettledExactly(r, less);
  }

  /** Where the data is after a request, and how large the block is: nothing changes as long as the room in front
   * and the room behind, with as much again as is in front, are there. */
  lemma MakeSpaceExactly(s: Buf, want: nat, wantPrepend: nat)
    requires s.Valid()
    ensures var r := MakeSpace(s, want, wantPrepend);
            var gap := if s.external || s.start < wantPrepend then wantPrepend else s.start;
            var front := if gap == 0 then 0x100 else gap;
            if s.external || s.start < wantPrepend || |s.block| < s.start + want + front then
              && r.start == front && !r.external
              && |r.block| == Max(|s.block|, front + Max(want + 1024, s.size))
            else r == s
  {
    MakeSpaceFits(s, want, wantPrepend);
  }

  /** A request that is not settled gets a new block: past the data size all is zero. */
  lemma UnsettledLoses(s: Buf, want: nat)
    requires s.Valid() && !s.external && !Settled(s, want)
    ensures var r := MakeSpace(s, want, 0);
            r.Valid() && forall k :: r.start + r.size <= k < |r.block| ==> r.block[k] == 0
  {
    MakeSpaceFits(s, want, 0);
  }
}
