/** Reading a saved .cod file through its central directory instead of through its local headers. */
module CodDirectory {
  import opened Bytes
  import opened CodFormat

  datatype File = File(name: seq<byte>, content: seq<byte>)

  datatype Archive = Archive(files: seq<File>) | Damaged

  /** The file that a local header at `offset` introduces: stored, and with the checksum it says. */
  function LocalFile(crc: Crc, b: seq<byte>, offset: nat): Archive {
    if offset + 4 + LOCAL_SIZE > |b| || b[offset..offset + 4] != LOCAL_SIG then Damaged else
    var h := b[offset + 4..offset + 4 + LOCAL_SIZE];
    var name := offset + 4 + LOCAL_SIZE;
    var data := name + At16(h, 22) + At16(h, 24);
    if At16(h, 0) > 20 || At16(h, 2) != 0 || At16(h, 4) != 0 then Damaged
    else if At32(h, 14) != At32(h, 18) || data + At32(h, 14) > |b| then Damaged
    else
      var content := b[data..data + At32(h, 14)];
      if At32(h, 10) != crc(content) % MAX32 then Damaged
      else Archive([File(b[name..name + At16(h, 22)], content)])
  }

  /** Whether a directory entry `h` with this name tells of that file: with its name, its checksum and its size. */
  predicate Lists(crc: Crc, h: seq<byte>, name: seq<byte>, file: File)
    requires |h| == ENTRY_SIZE
  {
    && At16(h, 2) <= 20 && At16(h, 4) == 0 && At16(h, 6) == 0
    && At32(h, 12) == crc(file.content) % MAX32
    && At32(h, 16) == |file.content| && At32(h, 20) == |file.content|
    && At16(h, 30) == 0 && name == file.name
  }

  /** `count` directory entries from `pos` on, each of which has to agree with its local header, and
   * the whole of them has to end where the end record begins. */
  function Entries(crc: Crc, b: seq<byte>, pos: nat, count: nat, end: nat): Archive
    decreases count
  {
    if count == 0 then if pos == end then Archive([]) else Damaged
    else if pos + 4 + ENTRY_SIZE > |b| || b[pos..pos + 4] != DIRECTORY_SIG then Damaged else
    var h := b[pos + 4..pos + 4 + ENTRY_SIZE];
    var name := pos + 4 + ENTRY_SIZE;
    if name + At16(h, 24) > |b| then Damaged else
    var file := LocalFile(crc, b, At32(h, 38));
    var rest := Entries(crc, b, name + At16(h, 24) + At16(h, 26) + At16(h, 28), count - 1, end);
    if file.Damaged? || rest.Damaged? then Damaged
    else if file.files == [] || !Lists(crc, h, b[name..name + At16(h, 24)], file.files[0]) then Damaged
    else Archive(file.files + rest.files)
  }

  /** Any PKZIP reader begins at the end record; here it has no comment, and there is one disk. */
  function Unzip(crc: Crc, b: seq<byte>): Archive {
    if |b| < 4 + END_SIZE then Damaged else
    var end := |b| - 4 - END_SIZE;
    if b[end..end + 4] != END_SIG then Damaged else
    var h := b[end + 4..];
    if At16(h, 0) != 0 || At16(h, 2) != 0 || At16(h, 16) != 0 then Damaged
    else if At16(h, 4) != At16(h, 6) || At32(h, 12) + At32(h, 8) != end then Damaged
    else Entries(crc, b, At32(h, 12), At16(h, 6), end)
  }

  /** The files that modules from number `i` on should become. */
  function Files(name: seq<byte>, i: nat, mods: seq<seq<byte>>): seq<File> {
    seq(|mods|, k requires 0 <= k < |mods| => File(FileName(name, i + k), mods[k]))
  }

  // ------------------------------------------------------------ one entry

  lemma LocalFileIs(b: seq<byte>, offset: nat, crc: Crc, name: seq<byte>, i: nat, m: seq<byte>, behind: seq<byte>)
    requires offset <= |b| && b[offset..] == LocalEntry(crc, name, i, m) + (m + behind)
    requires |m| < MAX32 && |FileName(name, i)| < MAX16
    ensures LocalFile(crc, b, offset) == Archive([File(FileName(name, i), m)])
  {
    hide LocalHeader, At16, At32, FileName;
    var fileName := FileName(name, i);
    var h := LocalHeader(crc(m), |m|, |fileName|);
    LocalFields(crc(m), |m|, |fileName|);
    var rest := b[offset..];
    var data := 4 + LOCAL_SIZE + |fileName|;
    assert rest[..4] == LOCAL_SIG && rest[4..4 + LOCAL_SIZE] == h;
    assert rest[4 + LOCAL_SIZE..data] == fileName && rest[data..data + |m|] == m;
    DropSlice(b, offset, 0, 4);
    DropSlice(b, offset, 4, 4 + LOCAL_SIZE);
    DropSlice(b, offset, 4 + LOCAL_SIZE, data);
    DropSlice(b, offset, data, data + |m|);
  }

  lemma EntryIs(b: seq<byte>, pos: nat, crc: Crc, name: seq<byte>, i: nat, m: seq<byte>, offset: nat, behind: seq<byte>)
    requires pos <= |b| && b[pos..] == Listing(crc, name, i, m, offset) + behind
    requires |m| < MAX32 && |FileName(name, i)| < MAX16 && offset < MAX32
    ensures var at := pos + 4 + ENTRY_SIZE; var length := |FileName(name, i)|;
            && at + length <= |b| && b[pos..pos + 4] == DIRECTORY_SIG && b[at..at + length] == FileName(name, i)
            && b[at + length..] == behind
    ensures var h := b[pos + 4..pos + 4 + ENTRY_SIZE];
            && At16(h, 24) == |FileName(name, i)| && At16(h, 26) == 0 && At16(h, 28) == 0 && At32(h, 38) == offset
            && Lists(crc, h, FileName(name, i), File(FileName(name, i), m))
  {
    hide DirectoryEntry, At16, At32, FileName;
    var fileName := FileName(name, i);
    var h := DirectoryEntry(crc(m), |m|, |fileName|, offset);
    EntryFields(crc(m), |m|, |fileName|, offset);
    NoDisk(h);
    var rest := b[pos..];
    var all := 4 + ENTRY_SIZE + |fileName|;
    assert rest[..4] == DIRECTORY_SIG && rest[4..4 + ENTRY_SIZE] == h;
    assert rest[4 + ENTRY_SIZE..all] == fileName && rest[all..] == behind;
    DropSlice(b, pos, 0, 4);
    DropSlice(b, pos, 4, 4 + ENTRY_SIZE);
    DropSlice(b, pos, 4 + ENTRY_SIZE, all);
    DropDrop(b, pos, all);
  }

  lemma NoDisk(h: seq<byte>)
    requires |h| == ENTRY_SIZE && h[30..38] == Zeros(8)
    ensures At16(h, 30) == 0
  {
    assert h[30] == h[30..38][0] && h[31] == h[30..38][1];
  }

  // --------------------------------------------------------- all the entries

  lemma FilesStep(name: seq<byte>, i: nat, mods: seq<seq<byte>>)
    requires mods != []
    ensures Files(name, i, mods) == [File(FileName(name, i), mods[0])] + Files(name, i + 1, mods[1..])
  {
    hide FileName;
  }

  lemma EntryStep(b: seq<byte>, pos: nat, offset: nat, crc: Crc, name: seq<byte>, i: nat, m: seq<byte>, count: nat,
                  behind: seq<byte>, tail: seq<byte>, end: nat)
    requires pos <= |b| && b[pos..] == Listing(crc, name, i, m, offset) + behind
    requires offset <= |b| && offset < MAX32 && b[offset..] == LocalEntry(crc, name, i, m) + (m + tail)
    requires |m| < MAX32 && |FileName(name, i)| < MAX16
    ensures var next := pos + 4 + ENTRY_SIZE + |FileName(name, i)|; var rest := Entries(crc, b, next, count, end);
            && next <= |b| && b[next..] == behind
            && b[offset..][|LocalEntry(crc, name, i, m)| + |m|..] == tail
            && Entries(crc, b, pos, count + 1, end) == if rest.Damaged? then Damaged
                                                  else Archive([File(FileName(name, i), m)] + rest.files)
  {
    hide LocalEntry, Listing, FileName, LocalFile, Lists, At16, At32;
    LocalFileIs(b, offset, crc, name, i, m, tail);
    EntryIs(b, pos, crc, name, i, m, offset, behind);
  }

  lemma NoEntries(b: seq<byte>, pos: nat, crc: Crc, name: seq<byte>, i: nat, offset: nat, end: seq<byte>)
    requires pos <= |b| && b[pos..] == Directory(crc, name, i, [], offset) + end
    ensures Entries(crc, b, pos, 0, |b| - |end|) == Archive(Files(name, i, []))
  {
  }

  lemma Parts(crc: Crc, name: seq<byte>, i: nat, mods: seq<seq<byte>>, offset: nat, tail: seq<byte>, end: seq<byte>)
    requires mods != []
    ensures var m, local := mods[0], LocalEntry(crc, name, i, mods[0]);
            && Body(crc, name, i, mods) + tail == local + (m + (Body(crc, name, i + 1, mods[1..]) + tail))
            && Directory(crc, name, i, mods, offset) + end
               == Listing(crc, name, i, m, offset)
                  + (Directory(crc, name, i + 1, mods[1..], offset + (|local| + |m|)) + end)
  {
    hide LocalEntry, Listing, FileName;
  }

  lemma {:induction false} EntriesAre(b: seq<byte>, pos: nat, offset: nat, crc: Crc, name: seq<byte>, i: nat,
                                      mods: seq<seq<byte>>, tail: seq<byte>, end: seq<byte>)
    requires pos <= |b| < MAX32 && b[pos..] == Directory(crc, name, i, mods, offset) + end
    requires offset <= |b| && b[offset..] == Body(crc, name, i, mods) + tail
    requires SizesFit(mods) && NamesFit(name, i, |mods|)
    ensures Entries(crc, b, pos, |mods|, |b| - |end|) == Archive(Files(name, i, mods))
    decreases |mods|
  {
    hide LocalEntry, Listing, FileName, Files, Entries, Body, Directory;
    if mods == [] {
      NoEntries(b, pos, crc, name, i, offset, end);
    } else {
      var m := mods[0];
      var size := |LocalEntry(crc, name, i, m)| + |m|;
      var bodies, listings := Body(crc, name, i + 1, mods[1..]), Directory(crc, name, i + 1, mods[1..], offset + size);
      Parts(crc, name, i, mods, offset, tail, end);
      EntryStep(b, pos, offset, crc, name, i, m, |mods[1..]|, listings + end, bodies + tail, |b| - |end|);
      assert b[offset..][size..] == b[offset + size..];
      EntriesAre(b, pos + 4 + ENTRY_SIZE + |FileName(name, i)|, offset + size, crc, name, i + 1, mods[1..], tail, end);
      FilesStep(name, i, mods);
    }
  }

  lemma EntryCount(crc: Crc, b: seq<byte>, pos: nat, count: nat, end: nat)
    ensures var r := Entries(crc, b, pos, count, end);
            r.Archive? ==> |r.files| == count
    decreases count
  {
    hide At16, At32, Lists;
  }

  /** The end record of a saved file leads to its directory. */
  lemma UnzipEntries(crc: Crc, b: seq<byte>, body: seq<byte>, directory: seq<byte>, count: nat)
    requires b == body + directory + END_SIG + EndRecord(count, |directory|, |body|) && |b| < MAX32
    ensures Unzip(crc, b) == Entries(crc, b, |body|, count % MAX16, |body| + |directory|)
  {
    hide EndRecord, At16, At32, Entries;
    var at := |body| + |directory|;
    assert b[at..at + 4] == END_SIG && b[at + 4..] == EndRecord(count, |directory|, |body|);
    EndFields(count, |directory|, |body|);
  }

  /** The central directory lists exactly the modules of a saved file, under their names, as long as
   * their number fits its field. */
  lemma UnzipSaved(crc: Crc, name: seq<byte>, mods: seq<seq<byte>>)
    requires |mods| != 1 && SizesFit(mods) && NamesFit(name, 0, |mods|) && |Image(crc, name, mods)| < MAX32
    ensures Unzip(crc, Image(crc, name, mods)) == Archive(Files(name, 0, mods)) <==> |mods| < MAX16
  {
    hide Body, Directory, EndRecord, Entries, Files, Unzip, NamesFit, SizesFit, Image;
    var body, directory := Body(crc, name, 0, mods), Directory(crc, name, 0, mods, 0);
    var end := END_SIG + EndRecord(|mods|, |directory|, |body|);
    var b := Image(crc, name, mods);
    ImageIs(crc, name, mods);
    Tails(body, directory, end);
    UnzipEntries(crc, b, body, directory, |mods|);
    EntryCount(crc, b, |body|, |mods| % MAX16, |body| + |directory|);
    FileCount(name, 0, mods);
    if |mods| < MAX16 {
      EntriesAre(b, |body|, 0, crc, name, 0, mods, directory + end, end);
    }
  }

  lemma ImageIs(crc: Crc, name: seq<byte>, mods: seq<seq<byte>>)
    requires |mods| != 1
    ensures var body, directory := Body(crc, name, 0, mods), Directory(crc, name, 0, mods, 0);
            && Image(crc, name, mods) == body + directory + END_SIG + EndRecord(|mods|, |directory|, |body|)
            && Image(crc, name, mods) == body + directory + (END_SIG + EndRecord(|mods|, |directory|, |body|))
  {
    hide Body, Directory, EndRecord;
  }

  lemma Tails(body: seq<byte>, directory: seq<byte>, end: seq<byte>)
    ensures var b := body + directory + end; b[|body|..] == directory + end && b[0..] == body + (directory + end)
  {
  }

  lemma FileCount(name: seq<byte>, i: nat, mods: seq<seq<byte>>)
    ensures |Files(name, i, mods)| == |mods|
  {
  }

  // ------------------------------------------------------------ distinct names

  lemma {:induction false} DecimalInjective(i: nat, j: nat)
    requires Decimal(i) == Decimal(j)
    ensures i == j
  {
    var a, b := Decimal(i), Decimal(j);
    assert a[|a| - 1] == b[|b| - 1];
    if i >= 10 && j >= 10 {
      assert a[..|a| - 1] == Decimal(i / 10) && b[..|b| - 1] == Decimal(j / 10);
      DecimalInjective(i / 10, j / 10);
    }
  }

  /** No two modules get the same file name. */
  lemma NamesDistinct(name: seq<byte>, i: nat, j: nat)
    ensures FileName(name, i) == FileName(name, j) <==> i == j
  {
    hide Decimal;
    var a, b := FileName(name, i), FileName(name, j);
    if a == b && i != j {
      assert i == 0 || a[|name| + 1..|a| - |COD|] == Decimal(i);
      assert j == 0 || b[|name| + 1..|b| - |COD|] == Decimal(j);
      if i != 0 && j != 0 {
        DecimalInjective(i, j);
      }
    }
  }
}
