/** The state of a `Data` object as a value, and what each operation makes of it.
 *
 * A `Buf` keeps the whole memory block, not only the bytes in use, because the
 * C++ code writes past the data size through raw pointers and relies on, or
 * loses, what is there when the block is replaced.
 */
module BufferModel {
  import opened Bytes

  const DEFAULT_SIZE := 0x4000
  const DEFAULT_PREPEND := 0x100
  const SLACK := 1024

  /** `block` is m_memBlock, `start` is m_dataStart - m_memBlock, `size` is m_dataSize.
   * `ext` is the read-only memory behind m_externalData, empty until first used. */
  datatype Buf = Buf(block: seq<byte>, start: nat, size: nat, external: bool, ext: seq<byte>)
  {
    predicate Valid() {
      && start <= |block|
      && (external ==> size <= |ext|)
      && (!external ==> start + size <= |block|)
    }

    function Avail(): nat {
      if external then 0 else start
    }

    function BufSize(): nat
      requires Valid()
    {
      if external then 0 else |block| - start
    }

    /** The abstract value: the bytes a reader of the object sees. */
    function Content(): seq<byte>
      requires Valid()
    {
      if external then ext[..size] else block[start..start + size]
    }
  }

  function PrependFor(s: Buf, wantPrepend: nat): nat {
    var p := Max(s.Avail(), wantPrepend);
    if p == 0 then DEFAULT_PREPEND else p
  }

  predicate MustMove(s: Buf, want: nat, wantPrepend: nat)
    requires s.Valid()
  {
    || s.BufSize() < want + PrependFor(s, wantPrepend)
    || (wantPrepend > 0 && s.Avail() < wantPrepend)
  }

  function NewSize(s: Buf, want: nat, wantPrepend: nat): nat {
    var p := PrependFor(s, wantPrepend);
    Max(want + SLACK + p, s.size + p)
  }

  /** The data moved to `prepend`, in the present block if it has `need` bytes, otherwise in a
   * zeroed new one. Source and destination may overlap: the data is read before it is written. */
  function Relocated(s: Buf, prepend: nat, need: nat): Buf
    requires s.Valid() && prepend + s.size <= need
  {
    var target := if |s.block| >= need then s.block else Zeros(need);
    s.(block := Splice(target, prepend, s.Content()), start := prepend, external := false)
  }

  function MakeSpace(s: Buf, want: nat, wantPrepend: nat): (r: Buf)
    requires s.Valid()
  {
    if !MustMove(s, want, wantPrepend) then s
    else Relocated(s, PrependFor(s, wantPrepend), NewSize(s, want, wantPrepend))
  }

  function GetBuffer(s: Buf, required: nat): Buf
    requires s.Valid()
  {
    MakeSpace(s, if required == 0 then s.size else required, 0)
  }

  /** A memcpy to the pointer GetBuffer returned, plus `at`. */
  function Poke(s: Buf, at: nat, src: seq<byte>): Buf
    requires s.Valid() && !s.external && at + |src| <= s.BufSize()
  {
    s.(block := Splice(s.block, s.start + at, src))
  }

  /** The same, and the data then ends at `end`. */
  function PokeTo(s: Buf, at: nat, src: seq<byte>, end: nat): Buf
    requires s.Valid() && !s.external && at + |src| <= s.BufSize()
  {
    Poke(s, at, src).(size := end)
  }

  /** ReleaseBuffer with a size that is not negative. */
  predicate CanRelease(s: Buf, size: nat)
    requires s.Valid()
  {
    !s.external && size <= s.BufSize()
  }

  function Zap(s: Buf): Buf {
    s.(size := 0, block := if s.external then s.block else Zeros(|s.block|))
  }

  function Copied(s: Buf): Buf {
    if s.external then Buf(Zeros(|s.block|), 0, s.size, true, s.ext) else s
  }

  function Assign(s: Buf, other: Buf): Buf
    requires s.Valid() && other.Valid()
  {
    if other.external then s.(ext := other.ext, external := true, size := other.size)
    else
      MakeSpaceFits(s, other.size, 0);
      var m := MakeSpace(s, other.size, 0);
      PokeTo(m, 0, other.Content(), other.size)
  }

  function MemCpy(s: Buf, offset: nat, src: seq<byte>): Buf
    requires s.Valid()
  {
    GetBufferFits(s, offset + |src|);
    var m := GetBuffer(s, offset + |src|);
    PokeTo(m, offset, src, Max(s.size, offset + |src|))
  }

  function Append(s: Buf, src: seq<byte>): Buf
    requires s.Valid()
  {
    MemCpy(s, s.size, src)
  }

  function Prepend(s: Buf, src: seq<byte>): Buf
    requires s.Valid()
  {
    MakeSpaceFits(s, 0, |src|);
    var m := MakeSpace(s, 0, |src|);
    Poke(m.(start := m.start - |src|, size := m.size + |src|), 0, src)
  }

  function Prechop(s: Buf, n: nat): Buf {
    if n >= s.size then s.(size := 0)
    else if s.external then
      s.(ext := if n <= |s.ext| then s.ext[n..] else [], size := s.size - n)
    else
      s.(start := s.start + n, size := s.size - n)
  }

  // ---------------------------------------------------------------- MakeSpace

  lemma RelocatedKeeps(s: Buf, prepend: nat, need: nat)
    requires s.Valid() && prepend + s.size <= need
    ensures var r := Relocated(s, prepend, need);
            && r.Valid() && r.Content() == s.Content() && |r.block| == Max(|s.block|, need)
  {
    SpliceReads(if |s.block| >= need then s.block else Zeros(need), prepend, s.Content());
  }

  /** What MakeSpace promises: no byte of the data is lost, `want` bytes may be written
   * from the data start, and `wantPrepend` bytes are free in front of it. */
  lemma MakeSpaceFits(s: Buf, want: nat, wantPrepend: nat)
    requires s.Valid()
    ensures var r := MakeSpace(s, want, wantPrepend);
            && r.Valid() && r.size == s.size
            && !r.external && r.BufSize() >= want && r.start >= wantPrepend
            && |r.block| >= |s.block|
            && r.Content() == s.Content()
  {
    if MustMove(s, want, wantPrepend) {
      RelocatedKeeps(s, PrependFor(s, wantPrepend), NewSize(s, want, wantPrepend));
    }
  }

  lemma GetBufferFits(s: Buf, required: nat)
    requires s.Valid()
    ensures var r := GetBuffer(s, required);
            && r.Valid() && r.size == s.size
            && !r.external && r.BufSize() >= required && r.Content() == s.Content()
  {
    MakeSpaceFits(s, if required == 0 then s.size else required, 0);
  }
}
