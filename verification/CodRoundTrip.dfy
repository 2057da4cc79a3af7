/** Saving modules to a .cod file and loading that file again. */
module CodRoundTrip {
  import opened Bytes
  import opened CodFormat
  import opened JavaLoader

  type Modules = seq<seq<byte>>

  // -------------------------------------------------- what the device receives

  function Puts(m: seq<byte>): seq<Command>
    decreases |m|
  {
    if m == [] then []
    else if |m| <= MAX_CHUNK then [PutData(m)]
    else [PutData(m[..MAX_CHUNK])] + Puts(m[MAX_CHUNK..])
  }

  function ModuleCommands(m: seq<byte>): seq<Command> {
    [CodSize(|m|)] + Puts(m)
  }

  function AllCommands(mods: Modules): seq<Command> {
    if mods == [] then [] else ModuleCommands(mods[0]) + AllCommands(mods[1..])
  }

  /** The modules a device has put together from what it received. */
  function Installed(cmds: seq<Command>): Modules {
    if cmds == [] then [] else
    var done, last := Installed(cmds[..|cmds| - 1]), cmds[|cmds| - 1];
    if last.CodSize? then done + [[]]
    else if done == [] then []
    else done[|done| - 1 := done[|done| - 1] + last.chunk]
  }

  lemma {:induction false} InstalledApart(a: seq<Command>, b: seq<Command>)
    requires b != [] ==> b[0].CodSize?
    ensures Installed(a + b) == Installed(a) + Installed(b)
    ensures b != [] ==> Installed(b) != []
    decreases |b|
  {
    if b == [] {
      assert a + b == a;
    } else {
      var init := b[..|b| - 1];
      assert (a + b)[..|a + b| - 1] == a + init;
      if init == [] {
        assert a + init == a;
      } else {
        InstalledApart(a, init);
      }
    }
  }

  lemma {:induction false} InstalledPuts(cmds: seq<Command>, m: seq<byte>)
    requires Installed(cmds) != []
    ensures Installed(cmds + Puts(m)) == Longer(Installed(cmds), m)
    decreases |m|
  {
    hide Installed, Puts, Longer;
    NothingLonger(cmds);
    if m != [] {
      var n := if |m| <= MAX_CHUNK then |m| else MAX_CHUNK;
      var more := cmds + [PutData(m[..n])];
      PutsCons(m, n);
      InstalledPut(cmds, m[..n]);
      LongerTwice(Installed(cmds), m[..n], m[n..]);
      InstalledPuts(more, m[n..]);
      assert more + Puts(m[n..]) == cmds + Puts(m);
    }
  }

  /** More data for the last module. */
  function Longer(mods: Modules, chunk: seq<byte>): (r: Modules)
    requires mods != []
    ensures |r| == |mods|
  {
    mods[|mods| - 1 := mods[|mods| - 1] + chunk]
  }

  lemma NothingLonger(cmds: seq<Command>)
    requires Installed(cmds) != []
    ensures cmds + Puts([]) == cmds && Longer(Installed(cmds), []) == Installed(cmds)
  {
    hide Installed;
    var mods := Installed(cmds);
    assert mods[|mods| - 1] + [] == mods[|mods| - 1];
  }

  lemma LongerTwice(mods: Modules, a: seq<byte>, b: seq<byte>)
    requires mods != []
    ensures Longer(Longer(mods, a), b) == Longer(mods, a + b)
  {
    assert (mods[|mods| - 1] + a) + b == mods[|mods| - 1] + (a + b);
  }

  lemma PutsCons(m: seq<byte>, n: nat)
    requires m != [] && n == if |m| <= MAX_CHUNK then |m| else MAX_CHUNK
    ensures Puts(m) == [PutData(m[..n])] + Puts(m[n..]) && m[..n] + m[n..] == m
  {
    if |m| <= MAX_CHUNK {
      assert m[..n] == m && m[n..] == [];
    }
  }

  lemma InstalledPut(cmds: seq<Command>, chunk: seq<byte>)
    requires Installed(cmds) != []
    ensures Installed(cmds + [PutData(chunk)]) == Longer(Installed(cmds), chunk)
  {
    assert (cmds + [PutData(chunk)])[..|cmds|] == cmds;
  }

  lemma InstalledOne(m: seq<byte>)
    ensures Installed(ModuleCommands(m)) == [m]
  {
    assert [CodSize(|m|)][..0] == [];
    assert Installed([CodSize(|m|)]) == [[]];
    InstalledPuts([CodSize(|m|)], m);
    assert [] + m == m;
  }

  /** A device that obeys the commands for a list of modules holds those modules. */
  lemma {:induction false} InstalledAll(mods: Modules)
    ensures Installed(AllCommands(mods)) == mods
  {
    if mods != [] {
      InstalledAll(mods[1..]);
      InstalledOne(mods[0]);
      InstalledApart(ModuleCommands(mods[0]), AllCommands(mods[1..]));
    }
  }

  /** Chunks are never empty and never longer than a packet holds. */
  lemma {:induction false} ChunksFitPacket(mods: Modules, c: Command)
    requires c in AllCommands(mods) && c.PutData?
    ensures 0 < |c.chunk| <= MAX_CHUNK
  {
    if c in ModuleCommands(mods[0]) {
      PutsFitPacket(mods[0], c);
    } else {
      ChunksFitPacket(mods[1..], c);
    }
  }

  lemma {:induction false} PutsFitPacket(m: seq<byte>, c: Command)
    requires c in Puts(m)
    ensures c.PutData? && 0 < |c.chunk| <= MAX_CHUNK
    decreases |m|
  {
    if |m| > MAX_CHUNK && c != PutData(m[..MAX_CHUNK]) {
      PutsFitPacket(m[MAX_CHUNK..], c);
    }
  }

  // ------------------------------------------------------------------ reading

  lemma {:induction false} SendDataIs(b: seq<byte>, pos: nat, m: seq<byte>)
    requires pos + |m| <= |b| && b[pos..pos + |m|] == m
    ensures SendData(b, pos, |m|) == Session(Puts(m), true)
    decreases |m|
  {
    if m != [] {
      var n := if |m| < MAX_CHUNK then |m| else MAX_CHUNK;
      assert b[pos..pos + n] == m[..n] && b[pos + n..pos + |m|] == m[n..];
      SendDataIs(b, pos + n, m[n..]);
    }
  }

  /** A local header is recognised wherever it stands. */
  lemma SeekLocal(b: seq<byte>, pos: nat, crc: Crc, name: seq<byte>, i: nat, m: seq<byte>, behind: seq<byte>)
    requires pos <= |b| && b[pos..] == LocalEntry(crc, name, i, m) + behind
    requires |m| < MAX32 && |FileName(name, i)| < MAX16
    ensures Seek(b, pos) == Sought(|m|, pos + |LocalEntry(crc, name, i, m)|)
  {
    hide LocalHeader, At16, At32;
    var h := LocalHeader(crc(m), |m|, |FileName(name, i)|);
    LocalFields(crc(m), |m|, |FileName(name, i)|);
    var entry := LocalEntry(crc, name, i, m);
    DropSlice(b, pos, 0, 4);
    DropSlice(b, pos, 4, 4 + LOCAL_SIZE);
    EntryHead(h, FileName(name, i) + behind);
    assert entry + behind == LOCAL_SIG + h + (FileName(name, i) + behind);
    assert b[pos..pos + 4] == LOCAL_SIG;
    assert b[pos + 4..pos + 4 + LOCAL_SIZE] == h;
  }

  lemma EntryHead(h: seq<byte>, behind: seq<byte>)
    requires |h| == LOCAL_SIZE
    ensures var e := LOCAL_SIG + h + behind; e[0..4] == LOCAL_SIG && e[4..4 + LOCAL_SIZE] == h
  {
  }

  function UpToEmpty(mods: Modules): Modules {
    if mods == [] || mods[0] == [] then [] else [mods[0]] + UpToEmpty(mods[1..])
  }

  /** Behind the modules comes another signature, which ends the reading. */
  predicate Ends(tail: seq<byte>) {
    |tail| >= 4 && tail[..2] == PKZIP && tail[..4] != LOCAL_SIG
  }

  /** One packed module is sent, and the reading goes on right behind it; an empty one ends the reading. */
  lemma LoadModule(b: seq<byte>, pos: nat, crc: Crc, name: seq<byte>, i: nat, m: seq<byte>, behind: seq<byte>)
    requires pos <= |b| < MAX32 && b[pos..] == LocalEntry(crc, name, i, m) + (m + behind)
    requires |m| < MAX32 && |FileName(name, i)| < MAX16
    ensures var next := pos + |LocalEntry(crc, name, i, m)| + |m|;
            && next <= |b| && b[next..] == behind
            && Load(b, pos) == if m == [] then Session([], true)
                               else Session(ModuleCommands(m) + Load(b, next).sent, Load(b, next).ok)
  {
    hide LocalEntry, SendData, Seek, Load, Puts, FileName;
    LoadStep(b, pos, []);
    assert [] + Load(b, pos).sent == Load(b, pos).sent;
    var entry := LocalEntry(crc, name, i, m);
    SeekLocal(b, pos, crc, name, i, m, m + behind);
    var data := pos + |entry|;
    assert b[data..data + |m|] == b[pos..][|entry|..|entry| + |m|] == m;
    assert b[data + |m|..] == b[pos..][|entry| + |m|..] == behind;
    SendDataIs(b, data, m);
    assert [] + [CodSize(|m|)] + Puts(m) == ModuleCommands(m);
  }

  lemma {:induction false} LoadBody(b: seq<byte>, pos: nat, crc: Crc, name: seq<byte>, i: nat, mods: Modules,
                                    tail: seq<byte>)
    requires pos <= |b| < MAX32 && b[pos..] == Body(crc, name, i, mods) + tail && Ends(tail)
    requires SizesFit(mods) && NamesFit(name, i, |mods|)
    ensures Load(b, pos) == Session(AllCommands(UpToEmpty(mods)), true)
    decreases |mods|
  {
    hide LocalEntry, Load, ModuleCommands, FileName, Ends, Body;
    if mods == [] {
      Unlisted(crc, name, i, 0);
      assert [] + tail == tail;
      LoadEnds(b, pos, tail);
    } else {
      var m, rest := mods[0], Body(crc, name, i + 1, mods[1..]);
      Unfolded(crc, name, i, mods, 0);
      Assoc(LocalEntry(crc, name, i, m) + m, rest, tail);
      Assoc(LocalEntry(crc, name, i, m), m, rest + tail);
      LoadModule(b, pos, crc, name, i, m, rest + tail);
      LoadBody(b, pos + |LocalEntry(crc, name, i, m)| + |m|, crc, name, i + 1, mods[1..], tail);
      AllCommandsStep(mods);
    }
  }

  lemma AllCommandsStep(mods: Modules)
    requires mods != []
    ensures AllCommands(UpToEmpty(mods))
         == if mods[0] == [] then [] else ModuleCommands(mods[0]) + AllCommands(UpToEmpty(mods[1..]))
  {
    if mods[0] != [] {
      assert UpToEmpty(mods)[1..] == UpToEmpty(mods[1..]);
    }
  }

  lemma LoadEnds(b: seq<byte>, pos: nat, tail: seq<byte>)
    requires pos <= |b| < MAX32 && b[pos..] == tail && Ends(tail)
    ensures Load(b, pos) == Session([], true)
  {
    hide Seek, SendData;
    SeekEnds(b, pos, tail);
  }

  lemma SeekEnds(b: seq<byte>, pos: nat, tail: seq<byte>)
    requires pos <= |b| && b[pos..] == tail && Ends(tail)
    ensures Seek(b, pos) == Sought(0, pos + 4)
  {
    assert b[pos..pos + 4] == tail[..4];
    assert tail[..4][..2] == tail[..2];
  }

  /** With one module or none at all the end record follows the modules, otherwise the directory. */
  lemma TailEnds(crc: Crc, name: seq<byte>, mods: Modules, end: seq<byte>)
    ensures Ends(Directory(crc, name, 0, mods, 0) + END_SIG + end)
  {
    var tail := Directory(crc, name, 0, mods, 0) + END_SIG + end;
    if mods == [] {
      assert tail == END_SIG + end;
      assert tail[..4] == END_SIG && tail[..2] == PKZIP;
    } else {
      assert tail[..4] == DIRECTORY_SIG && tail[..2] == PKZIP;
    }
  }

  // -------------------------------------------------------------- round trip

  lemma {:induction false} UpToEmptyExactly(mods: Modules)
    ensures UpToEmpty(mods) == mods <==> forall m :: m in mods ==> m != []
    ensures |UpToEmpty(mods)| <= |mods|
  {
    if mods != [] {
      assert mods[0] in mods;
      if mods[0] != [] {
        UpToEmptyExactly(mods[1..]);
        assert mods == [mods[0]] + mods[1..];
        assert UpToEmpty(mods)[1..] == UpToEmpty(mods[1..]);
        assert forall m :: m in mods <==> m == mods[0] || m in mods[1..];
      }
    }
  }

  /** The modules that can be saved and loaded: none is empty, and a lone one, which is saved without
   * a container, is recognised by its own signature. */
  predicate Loadable(mods: Modules) {
    if |mods| == 1 then |mods[0]| >= 4 && mods[0][..2] == SIMPLE
    else forall m :: m in mods ==> m != []
  }

  lemma PackedLoads(crc: Crc, name: seq<byte>, mods: Modules)
    requires |mods| != 1 && SizesFit(mods) && NamesFit(name, 0, |mods|) && |Image(crc, name, mods)| < MAX32
    ensures Load(Image(crc, name, mods), 0) == Session(AllCommands(UpToEmpty(mods)), true)
  {
    hide Body, Directory, EndRecord, Load;
    var body, directory := Body(crc, name, 0, mods), Directory(crc, name, 0, mods, 0);
    var end := EndRecord(|mods|, |directory|, |body|);
    var b := Image(crc, name, mods);
    assert b[0..] == body + (directory + END_SIG + end);
    TailEnds(crc, name, mods, end);
    LoadBody(b, 0, crc, name, 0, mods, directory + END_SIG + end);
  }

  lemma {:induction false} PutsInstalled(b: seq<byte>, pos: nat, size: nat)
    requires pos + size <= |b|
    ensures SendData(b, pos, size) == Session(Puts(b[pos..pos + size]), true)
  {
    SendDataIs(b, pos, b[pos..pos + size]);
  }

  lemma LoadBeginsWithSize(b: seq<byte>, pos: nat)
    requires pos <= |b| < MAX32
    ensures Load(b, pos).sent != [] ==> Load(b, pos).sent[0].CodSize?
  {
    hide SendData, Seek;
  }

  /** A lone module arrives if and only if it has the signature of a module: packed or damaged ones
   * lose at least their header or are refused. */
  lemma LoneLoads(m: seq<byte>)
    requires |m| < MAX32
    ensures Load(m, 0).ok && Installed(Load(m, 0).sent) == [m] <==> |m| >= 4 && m[..2] == SIMPLE
  {
    hide Load, SendData, Seek, Installed;
    LoneSeek(m);
    NothingInstalled();
    var r := Seek(m, 0);
    if r.Sought? && r.size != 0 {
      LoneSession(m, r);
    } else {
      LoadStep(m, 0, []);
      assert [] + Load(m, 0).sent == Load(m, 0).sent;
    }
  }

  lemma LoneSession(m: seq<byte>, r: Sought)
    requires |m| < MAX32 && r == Seek(m, 0) && r.Sought? && r.size != 0
    requires r.pos == 0 ==> r.size == |m|
    ensures Load(m, 0).ok && Installed(Load(m, 0).sent) == [m] <==> r.pos == 0
  {
    hide Load, SendData, Seek, Installed;
    LoadStep(m, 0, []);
    assert [] + Load(m, 0).sent == Load(m, 0).sent;
    SendReads(m, r.pos, r.size);
    if r.pos + r.size <= |m| {
      assert [] + [CodSize(r.size)] == [CodSize(r.size)];
      LoneModule(m, r.pos, r.size, Load(m, 0).sent);
    }
  }

  lemma NothingInstalled()
    ensures Installed([]) == []
  {
  }

  /** Either the whole stream is taken for the module, or what is found lies behind a header. */
  lemma LoneSeek(m: seq<byte>)
    requires |m| < MAX32
    ensures var r := Seek(m, 0);
            && (|m| >= 4 && m[..2] == SIMPLE ==> r == Sought(|m|, 0))
            && (!(|m| >= 4 && m[..2] == SIMPLE) && r.Sought? && r.size != 0 ==> r.pos > 0)
            && (r.Sought? && r.size != 0 && r.pos == 0 ==> r.size == |m|)
  {
    hide At16, At32;
    if |m| >= 4 {
      assert m[0..4][..2] == m[..2];
    }
  }

  lemma LoneModule(m: seq<byte>, pos: nat, size: nat, sent: seq<Command>)
    requires |m| < MAX32 && pos + size <= |m|
    requires sent == [CodSize(size)] + SendData(m, pos, size).sent + Load(m, pos + size).sent
    requires pos == 0 ==> size == |m|
    ensures Installed(sent) == [m] <==> pos == 0
    ensures pos == 0 ==> Load(m, pos + size).ok
  {
    hide Load, SendData, Installed;
    var first, rest := m[pos..pos + size], Load(m, pos + size);
    PutsInstalled(m, pos, size);
    InstalledOne(first);
    LoadBeginsWithSize(m, pos + size);
    InstalledApart(ModuleCommands(first), rest.sent);
    NothingInstalled();
    if pos == 0 {
      LoadStep(m, |m|, []);
      assert [] + rest.sent == rest.sent;
      assert first == m;
    } else {
      assert Installed(sent)[0] == first && |first| < |m|;
    }
  }

  /** What is loaded from a saved file is what was saved, exactly for loadable modules. */
  lemma SaveThenLoad(crc: Crc, name: seq<byte>, mods: Modules)
    requires SizesFit(mods) && NamesFit(name, 0, |mods|) && |Image(crc, name, mods)| < MAX32
    ensures var s := Load(Image(crc, name, mods), 0);
            s.ok && Installed(s.sent) == mods <==> Loadable(mods)
  {
    hide Load, Installed, Body, Directory;
    if |mods| == 1 {
      LoneLoads(mods[0]);
      assert mods == [mods[0]];
    } else {
      PackedLoads(crc, name, mods);
      InstalledAll(UpToEmpty(mods));
      UpToEmptyExactly(mods);
    }
  }
}
