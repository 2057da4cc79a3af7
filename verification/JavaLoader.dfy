/** Saving modules from the device into a .cod file, and loading such a file into the device. */
module JavaLoader {
  import opened Bytes
  import opened BufferModel
  import opened BufferRefinement
  import opened DataBuffer
  import opened CodFormat

  const MAX_CHUNK := 0x7F8

  class OutputStream {
    var bytes: seq<byte>

    constructor ()
      ensures bytes == []
    {
      bytes := [];
    }

    method Write(s: seq<byte>)
      modifies this
      ensures bytes == old(bytes) + s
    {
      bytes := bytes + s;
    }
  }

  // ------------------------------------------------------------------- saving

  class CodFileBuilder {
    const crc: Crc
    const moduleName: seq<byte>
    const moduleCount: nat
    var currentModule: nat
    var directory: seq<byte>

    constructor (crc: Crc, moduleName: seq<byte>, moduleCount: nat)
      ensures this.crc == crc && this.moduleName == moduleName && this.moduleCount == moduleCount
      ensures currentModule == 0 && directory == []
    {
      this.crc, this.moduleName, this.moduleCount := crc, moduleName, moduleCount;
      currentModule, directory := 0, [];
    }

    /** The caller writes the module itself. Nothing happens for a lone module. */
    method WriteNextHeader(output: OutputStream, m: seq<byte>)
      modifies this, output
      ensures moduleCount == 1 ==>
                output.bytes == old(output.bytes) && directory == old(directory) && currentModule == old(currentModule)
      ensures moduleCount != 1 ==>
                && output.bytes == old(output.bytes) + LocalEntry(crc, moduleName, old(currentModule), m)
                && directory == old(directory) + Listing(crc, moduleName, old(currentModule), m, |old(output.bytes)|)
                && currentModule == old(currentModule) + 1
    {
      if moduleCount == 1 {
        return;
      }
      hide LocalHeader, DirectoryEntry, FileName;
      var sum := crc(m);
      var fileName := FileName(moduleName, currentModule);
      var entryOffset := |output.bytes|;
      output.Write(LOCAL_SIG);
      output.Write(LocalHeader(sum, |m|, |fileName|));
      output.Write(fileName);
      directory := directory + DIRECTORY_SIG;
      directory := directory + DirectoryEntry(sum, |m|, |fileName|, entryOffset);
      directory := directory + fileName;
      currentModule := currentModule + 1;
      ThreePieces(old(output.bytes), LOCAL_SIG, LocalHeader(sum, |m|, |fileName|), fileName);
      ThreePieces(old(directory), DIRECTORY_SIG, DirectoryEntry(sum, |m|, |fileName|, entryOffset), fileName);
    }

    method WriteFooter(output: OutputStream)
      modifies output
      ensures output.bytes == old(output.bytes) +
              if moduleCount == 1 then []
              else directory + END_SIG + EndRecord(currentModule, |directory|, |old(output.bytes)|)
    {
      if moduleCount == 1 {
        return;
      }
      var end := EndRecord(currentModule, |directory|, |output.bytes|);
      output.Write(directory);
      output.Write(END_SIG);
      output.Write(end);
    }
  }

  lemma ThreePieces(front: seq<byte>, a: seq<byte>, b: seq<byte>, c: seq<byte>)
    ensures front + a + b + c == front + (a + b + c)
  {
  }

  /** The device sends a module in chunks; they are put together in a buffer. */
  method SaveData(chunks: seq<seq<byte>>, builder: CodFileBuilder, output: OutputStream)
    modifies builder, output
    ensures builder.moduleCount == 1 ==>
              && output.bytes == old(output.bytes) + Flatten(chunks)
              && builder.directory == old(builder.directory) && builder.currentModule == old(builder.currentModule)
    ensures var m := Flatten(chunks); var i := old(builder.currentModule);
            builder.moduleCount != 1 ==>
              && output.bytes == old(output.bytes) + (LocalEntry(builder.crc, builder.moduleName, i, m) + m)
              && builder.directory
                 == old(builder.directory) + Listing(builder.crc, builder.moduleName, i, m, |old(output.bytes)|)
              && builder.currentModule == i + 1
  {
    var m := Reassemble(chunks);
    builder.WriteNextHeader(output, m);
    output.Write(m);
  }

  method Reassemble(chunks: seq<seq<byte>>) returns (m: seq<byte>)
    ensures m == Flatten(chunks)
  {
    hide BufferModel.GetBuffer, BufferModel.MakeSpace;
    var total := |Flatten(chunks)|;
    var buffer := new Data(-1, total);
    var offset := 0;
    assert chunks[..0] == [];
    for k := 0 to |chunks|
      invariant buffer.Valid() && fresh(buffer) && fresh(buffer.memBlock)
      invariant buffer.Content() == Flatten(chunks[..k]) && offset == |buffer.Content()|
    {
      FlattenSnoc(chunks[..k], chunks[k]);
      assert chunks[..k] + [chunks[k]] == chunks[..k + 1];
      AddChunk(buffer, offset, chunks[k]);
      offset := offset + |chunks[k]|;
    }
    assert chunks[..|chunks|] == chunks;
    m := buffer.GetData();
  }

  method AddChunk(buffer: Data, offset: nat, chunk: seq<byte>)
    requires buffer.Valid() && offset == |buffer.Content()|
    modifies buffer, buffer.memBlock
    ensures buffer.Valid() && (buffer.memBlock == old(buffer.memBlock) || fresh(buffer.memBlock))
    ensures buffer.Content() == old(buffer.Content()) + chunk
  {
    hide BufferModel.GetBuffer, BufferModel.MakeSpace, BufferModel.Poke, Buf.Content, CanRelease;
    ContentSize(buffer.state);
    GetBufferFits(buffer.state, offset + |chunk|);
    buffer.GetBuffer(offset + |chunk|);
    ghost var s := buffer.state;
    buffer.Poke(offset, chunk);
    AppendByPoke(s, chunk);
    var ok := buffer.ReleaseBuffer(offset + |chunk|);
  }

  lemma AppendByPoke(s: Buf, chunk: seq<byte>)
    requires s.Valid() && !s.external && s.size + |chunk| <= s.BufSize()
    ensures var w := BufferModel.Poke(s, s.size, chunk);
            && w.Valid() && CanRelease(w, s.size + |chunk|) && s.size == |s.Content()|
            && w.(size := s.size + |chunk|).Valid()
            && w.(size := s.size + |chunk|).Content() == s.Content() + chunk
  {
  }

  /** Saves the modules of an application, each of which the device sends in chunks. */
  method Save(crc: Crc, codName: seq<byte>, siblings: seq<seq<seq<byte>>>, output: OutputStream)
    requires output.bytes == []
    modifies output
    ensures output.bytes == Image(crc, codName, Modules(siblings))
  {
    hide LocalEntry, Listing, EndRecord, SoFar, Image;
    var builder := new CodFileBuilder(crc, codName, |siblings|);
    ghost var all := Modules(siblings);
    NothingSoFar(crc, codName, |siblings|);
    assert all[..0] == [];
    for i := 0 to |siblings|
      invariant fresh(builder)
      invariant SoFar(crc, codName, |siblings|, all[..i], output.bytes, builder.directory, builder.currentModule)
    {
      OneMore(crc, codName, |siblings|, all[..i], output.bytes, builder.directory, builder.currentModule, all[i]);
      assert all[..i] + [all[i]] == all[..i + 1];
      SaveData(siblings[i], builder, output);
    }
    assert all[..|siblings|] == all;
    ImageParts(crc, codName, all, output.bytes, builder.directory, builder.currentModule);
    builder.WriteFooter(output);
  }

  /** What has been written when `mods` of `count` modules are saved. */
  predicate SoFar(crc: Crc, name: seq<byte>, count: nat, mods: seq<seq<byte>>, bytes: seq<byte>,
                  directory: seq<byte>, current: nat)
  {
    if count == 1 then bytes == Flatten(mods) && directory == [] && current == 0
    else bytes == Body(crc, name, 0, mods) && directory == Directory(crc, name, 0, mods, 0) && current == |mods|
  }

  lemma NothingSoFar(crc: Crc, name: seq<byte>, count: nat)
    ensures SoFar(crc, name, count, [], [], [], 0)
  {
  }

  lemma OneMore(crc: Crc, name: seq<byte>, count: nat, mods: seq<seq<byte>>, bytes: seq<byte>, directory: seq<byte>,
                current: nat, m: seq<byte>)
    requires SoFar(crc, name, count, mods, bytes, directory, current)
    ensures count == 1 ==> SoFar(crc, name, count, mods + [m], bytes + m, directory, current)
    ensures count != 1 ==>
              SoFar(crc, name, count, mods + [m], bytes + (LocalEntry(crc, name, current, m) + m),
                    directory + Listing(crc, name, current, m, |bytes|), current + 1)
  {
    hide LocalEntry, Listing, Body, Directory;
    if count == 1 {
      FlattenSnoc(mods, m);
    } else {
      BodySnoc(crc, name, 0, mods, m);
      DirectorySnoc(crc, name, 0, mods, 0, m);
    }
  }

  lemma ImageParts(crc: Crc, name: seq<byte>, mods: seq<seq<byte>>, bytes: seq<byte>, directory: seq<byte>,
                   current: nat)
    requires SoFar(crc, name, |mods|, mods, bytes, directory, current)
    ensures |mods| == 1 ==> Image(crc, name, mods) == bytes + []
    ensures |mods| != 1 ==>
              Image(crc, name, mods) == bytes + (directory + END_SIG + EndRecord(current, |directory|, |bytes|))
  {
    hide Body, Directory, EndRecord;
    if |mods| == 1 {
      assert mods[1..] == [] && Flatten(mods) == mods[0] + [];
    }
  }

  function Modules(siblings: seq<seq<seq<byte>>>): (mods: seq<seq<byte>>)
    ensures |mods| == |siblings|
  {
    seq(|siblings|, i requires 0 <= i < |siblings| => Flatten(siblings[i]))
  }

  // ------------------------------------------------------------------ loading

  /** The position of a read stream and what was found there: a module of `size` bytes that
   * begins at `pos`, or with size 0 the end of the modules; or a malformed file. */
  datatype Sought = Sought(size: nat, pos: nat) | Malformed

  function Seek(b: seq<byte>, pos: nat): Sought
    requires pos <= |b|
  {
    if pos == |b| then Sought(0, pos)
    else if pos + 4 > |b| then Malformed
    else
      var sig := b[pos..pos + 4];
      if sig[..2] == PKZIP then
        if sig == LOCAL_SIG then
          if pos + 4 + LOCAL_SIZE > |b| then Malformed else
          var h := b[pos + 4..pos + 4 + LOCAL_SIZE];
          var data := pos + 4 + LOCAL_SIZE + At16(h, 22) + At16(h, 24);
          if data > |b| then Malformed else Sought(At32(h, 14), data)
        else Sought(0, pos + 4)
      else if sig[..2] == SIMPLE then Sought(|b| % MAX32, 0)
      else Malformed
  }

  /** What is sent to the device. */
  datatype Command = CodSize(size: nat) | PutData(chunk: seq<byte>)

  datatype Session = Session(sent: seq<Command>, ok: bool)

  function SendData(b: seq<byte>, pos: nat, size: nat): Session
    requires pos <= |b|
    decreases size
  {
    if size == 0 then Session([], true) else
    var n := if size < MAX_CHUNK then size else MAX_CHUNK;
    if pos + n > |b| then Session([], false) else
    var rest := SendData(b, pos + n, size - n);
    Session([PutData(b[pos..pos + n])] + rest.sent, rest.ok)
  }

  function Load(b: seq<byte>, pos: nat): Session
    requires pos <= |b| < MAX32
    decreases |b| - pos
  {
    match Seek(b, pos)
    case Malformed => Session([], false)
    case Sought(size, data) =>
      if size == 0 then Session([], true) else
      SeekBounds(b, pos);
      var first := SendData(b, data, size);
      if !first.ok then Session([CodSize(size)] + first.sent, false) else
      SendReads(b, data, size);
      var rest := Load(b, data + size);
      Session([CodSize(size)] + first.sent + rest.sent, rest.ok)
  }

  lemma SeekBounds(b: seq<byte>, pos: nat)
    requires pos <= |b| < MAX32
    ensures var r := Seek(b, pos);
            r.Sought? ==> r.pos <= |b| && (r.size != 0 ==> r.pos + r.size > pos)
  {
  }

  lemma {:induction false} SendReads(b: seq<byte>, pos: nat, size: nat)
    requires pos <= |b|
    ensures SendData(b, pos, size).ok <==> pos + size <= |b|
    decreases size
  {
    if size != 0 {
      var n := if size < MAX_CHUNK then size else MAX_CHUNK;
      if pos + n <= |b| {
        SendReads(b, pos + n, size - n);
      }
    }
  }

  class InputStream {
    const bytes: seq<byte>
    var pos: nat

    predicate Valid()
      reads this
    {
      pos <= |bytes|
    }

    constructor (bytes: seq<byte>)
      ensures Valid() && this.bytes == bytes && pos == 0
    {
      this.bytes, pos := bytes, 0;
    }

    /** Fails at the end of the file; the stream is then left at its end. */
    method Read(n: nat) returns (s: seq<byte>, ok: bool)
      requires Valid()
      modifies this
      ensures Valid() && ok == (old(pos) + n <= |bytes|)
      ensures ok ==> s == bytes[old(pos)..old(pos) + n] && pos == old(pos) + n
    {
      ok := pos + n <= |bytes|;
      if ok {
        s, pos := bytes[pos..pos + n], pos + n;
      } else {
        s, pos := [], |bytes|;
      }
    }
  }

  method SeekNextCod(input: InputStream) returns (r: Sought)
    requires input.Valid()
    modifies input
    ensures input.Valid() && r == Seek(input.bytes, old(input.pos))
    ensures r.Sought? ==> input.pos == r.pos
  {
    if input.pos == |input.bytes| {
      return Sought(0, input.pos);
    }
    var sig, ok := input.Read(4);
    if !ok {
      return Malformed;
    }
    if sig[..2] == PKZIP {
      if sig == LOCAL_SIG {
        var h;
        h, ok := input.Read(LOCAL_SIZE);
        if !ok {
          return Malformed;
        }
        var skipped;
        skipped, ok := input.Read(At16(h, 22) + At16(h, 24));
        return if ok then Sought(At32(h, 14), input.pos) else Malformed;
      }
      return Sought(0, input.pos);
    } else if sig[..2] == SIMPLE {
      input.pos := 0;
      return Sought(|input.bytes| % MAX32, 0);
    }
    return Malformed;
  }

  /** The device end of the line; it acknowledges everything. */
  class Device {
    var received: seq<Command>

    constructor ()
      ensures received == []
    {
      received := [];
    }

    method Receive(c: Command)
      modifies this
      ensures received == old(received) + [c]
    {
      received := received + [c];
    }
  }

  method SendStream(input: InputStream, moduleSize: nat, device: Device) returns (ok: bool)
    requires input.Valid()
    modifies input, device
    ensures input.Valid()
    ensures var s := SendData(input.bytes, old(input.pos), moduleSize);
            ok == s.ok && device.received == old(device.received) + [CodSize(moduleSize)] + s.sent
    ensures ok ==> input.pos == old(input.pos) + moduleSize
  {
    hide SendData;
    ghost var whole := SendData(input.bytes, input.pos, moduleSize);
    var remaining: nat := moduleSize;
    device.Receive(CodSize(moduleSize));
    ghost var head := device.received;
    assert head + whole.sent == head + SendData(input.bytes, input.pos, remaining).sent;
    while remaining > 0
      invariant input.Valid() && input.pos + remaining == old(input.pos) + moduleSize
      invariant SendData(input.bytes, input.pos, remaining).ok == whole.ok
      invariant device.received + SendData(input.bytes, input.pos, remaining).sent == head + whole.sent
    {
      var size := if remaining < MAX_CHUNK then remaining else MAX_CHUNK;
      SendDataStep(input.bytes, input.pos, remaining, device.received);
      var chunk, read := input.Read(size);
      if !read {
        return false;
      }
      device.Receive(PutData(chunk));
      remaining := remaining - size;
    }
    NoneSent(input.bytes, input.pos, device.received);
    ok := true;
  }

  lemma NoneSent(b: seq<byte>, pos: nat, before: seq<Command>)
    requires pos <= |b|
    ensures SendData(b, pos, 0).ok && before + SendData(b, pos, 0).sent == before
  {
  }

  lemma SendDataStep(b: seq<byte>, pos: nat, size: nat, before: seq<Command>)
    requires pos <= |b| && size > 0
    ensures var n := if size < MAX_CHUNK then size else MAX_CHUNK; var s := SendData(b, pos, size);
            if pos + n > |b| then !s.ok && before + s.sent == before
            else s.ok == SendData(b, pos + n, size - n).ok
                 && before + s.sent == (before + [PutData(b[pos..pos + n])]) + SendData(b, pos + n, size - n).sent
  {
  }

  /** True if the file was loaded to its end, false if something was thrown. */
  method LoadApp(input: InputStream, device: Device) returns (ok: bool)
    requires input.Valid() && |input.bytes| < MAX32
    modifies input, device
    ensures var s := Load(input.bytes, old(input.pos));
            ok == s.ok && device.received == old(device.received) + s.sent
  {
    hide Load, Seek, SendData;
    ghost var b, whole := input.bytes, Load(input.bytes, input.pos);
    while true
      invariant input.Valid()
      invariant Load(b, input.pos).ok == whole.ok
      invariant device.received + Load(b, input.pos).sent == old(device.received) + whole.sent
      decreases |input.bytes| - input.pos
    {
      ghost var pos, sent := input.pos, device.received;
      LoadStep(b, pos, sent);
      SeekBounds(b, pos);
      var r := SeekNextCod(input);
      if r.Malformed? {
        return false;
      }
      if r.size == 0 {
        return true;
      }
      SendReads(b, r.pos, r.size);
      ok := SendStream(input, r.size, device);
      if !ok {
        return;
      }
    }
  }

  /** Load, one module at a time, behind what was `sent` before. */
  lemma LoadStep(b: seq<byte>, pos: nat, sent: seq<Command>)
    requires pos <= |b| < MAX32
    ensures var r := Seek(b, pos); var all := Load(b, pos);
            match r
            case Malformed => !all.ok && sent + all.sent == sent
            case Sought(size, data) =>
              data <= |b| &&
              if size == 0 then all.ok && sent + all.sent == sent else
              var first := SendData(b, data, size);
              if !first.ok then !all.ok && sent + all.sent == sent + [CodSize(size)] + first.sent
              else data + size <= |b| && all.ok == Load(b, data + size).ok
                   && sent + all.sent == (sent + [CodSize(size)] + first.sent) + Load(b, data + size).sent
  {
    hide SendData;
    SeekBounds(b, pos);
    var r := Seek(b, pos);
    if r.Sought? && r.size != 0 {
      SendReads(b, r.pos, r.size);
    }
  }
}
