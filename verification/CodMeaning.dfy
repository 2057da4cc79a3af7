/** The names, the chunks and the damage of .cod files, each said by its bytes. */
module CodMeaning {
  import opened Bytes
  import opened TextLines
  import opened CodFormat
  import opened JavaLoader
  import opened CodRoundTrip

  lemma Signatures()
    ensures LOCAL_SIG == Text("PK") + [3, 4] && DIRECTORY_SIG == Text("PK") + [1, 2] && END_SIG == Text("PK") + [5, 6]
    ensures PKZIP == Text("PK") && SIMPLE == [0xDE, 0xC0]
  {
  }

  // ---------------------------------------------------------------- file names

  predicate Decimals(d: seq<byte>) {
    forall k :: 0 <= k < |d| ==> Text("0")[0] <= d[k] <= Text("9")[0]
  }

  /** The number that decimal digits stand for. */
  function NumberOf(d: seq<byte>): int {
    if d == [] then 0 else 10 * NumberOf(d[..|d| - 1]) + (d[|d| - 1] as int - Text("0")[0] as int)
  }

  lemma DecimalStep(n: nat)
    ensures Decimal(n) == (if n < 10 then [] else Decimal(n / 10)) + [0x30 + n % 10]
  {
    assert n < 10 ==> [0x30 + n] == [] + [0x30 + n % 10];
  }

  lemma NumberSnoc(d: seq<byte>, c: byte)
    requires 0x30 <= c <= 0x39
    ensures NumberOf(d + [c]) == 10 * NumberOf(d) + (c - 0x30) && (Decimals(d) ==> Decimals(d + [c]))
  {
    assert (d + [c])[..|d|] == d;
    assert Text("0") == [0x30] && Text("9") == [0x39];
  }

  lemma {:induction false} DecimalIs(n: nat)
    ensures Decimals(Decimal(n)) && NumberOf(Decimal(n)) == n && (n > 0 ==> Decimal(n)[0] != 0x30)
  {
    hide Decimal, Decimals, NumberOf;
    DecimalStep(n);
    if n < 10 {
      NoDigits();
      NumberSnoc([], 0x30 + n % 10);
    } else {
      DecimalIs(n / 10);
      NumberSnoc(Decimal(n / 10), 0x30 + n % 10);
    }
  }

  lemma NoDigits()
    ensures Decimals([]) && NumberOf([]) == 0
  {
  }

  /** The first module has the plain name; the others have a hyphen and their number, without leading zeros. */
  lemma FileNameIs(name: seq<byte>, i: nat) returns (d: seq<byte>)
    ensures Decimals(d) && NumberOf(d) == i && (i > 0 ==> d != [] && d[0] != Text("0")[0])
    ensures FileName(name, i) == if i == 0 then name + Text(".cod") else name + Text("-") + d + Text(".cod")
  {
    hide Decimal, Decimals, NumberOf;
    d := Decimal(i);
    DecimalIs(i);
    assert Text("0") == [0x30] && Text("-") == [HYPHEN] && Text(".cod") == COD;
  }

  // -------------------------------------------------------------------- chunks

  /** The k-th chunk of a module has 0x7f8 bytes, except for the last one. */
  lemma {:induction false} ChunksAre(m: seq<byte>, k: nat)
    ensures |Puts(m)| == (|m| + 0x7f7) / 0x7f8
    ensures k * 0x7f8 < |m| ==>
              && k < |Puts(m)|
              && Puts(m)[k] == PutData(m[k * 0x7f8..if k * 0x7f8 + 0x7f8 < |m| then k * 0x7f8 + 0x7f8 else |m|])
    decreases |m|
  {
    if |m| > 0x7f8 {
      var rest := m[0x7f8..];
      assert Puts(m) == [PutData(m[..0x7f8])] + Puts(rest);
      ChunksAre(rest, if k > 0 then k - 1 else 0);
      if k > 0 && k * 0x7f8 < |m| {
        var from: nat := (k - 1) * 0x7f8;
        var to := if from + 0x7f8 < |rest| then from + 0x7f8 else |rest|;
        assert rest[from..to] == m[from + 0x7f8..to + 0x7f8];
      }
    } else if m != [] {
      assert Puts(m) == [PutData(m)] && m[0..|m|] == m;
    }
  }

  // ------------------------------------------------------------------- damage

  /** A file that begins with no known signature is refused before anything is sent. */
  lemma OddIsRefused(b: seq<byte>)
    requires 0 < |b| < MAX32
    requires |b| < 4 || (b[..2] != Text("PK") && b[..2] != [0xDE, 0xC0])
    ensures Load(b, 0) == Session([], false)
  {
    Signatures();
    if |b| >= 4 {
      assert b[0..4][..2] == b[..2];
    }
  }

  lemma {:induction false} SendCut(b: seq<byte>, pos: nat, m: seq<byte>)
    requires pos <= |b| < pos + |m| && b[pos..] == m[..|b| - pos]
    ensures var s := SendData(b, pos, |m|); !s.ok && s.sent <= Puts(m)
    decreases |m|
  {
    var n := if |m| < MAX_CHUNK then |m| else MAX_CHUNK;
    if pos + n <= |b| {
      assert b[pos..pos + n] == b[pos..][..n] == m[..n];
      assert b[pos + n..] == b[pos..][n..] == m[n..][..|b| - pos - n];
      SendCut(b, pos + n, m[n..]);
      PutsCons(m, n);
      assert SendData(b, pos, |m|).sent == [PutData(m[..n])] + SendData(b, pos + n, |m| - n).sent;
    }
  }

  /** A piece of a packed module at the end of a file, which begins with at least one byte of it. */
  lemma CutModule(b: seq<byte>, pos: nat, crc: Crc, name: seq<byte>, i: nat, m: seq<byte>)
    requires pos < |b| < MAX32 && m != [] && |m| < MAX32 && |FileName(name, i)| < MAX16
    requires |b| - pos < |LocalEntry(crc, name, i, m)| + |m|
    requires b[pos..] == (LocalEntry(crc, name, i, m) + m)[..|b| - pos]
    ensures !Load(b, pos).ok && Load(b, pos).sent <= ModuleCommands(m)
  {
    hide Load, LocalEntry, LocalHeader, FileName, At16, At32, SendData, Seek, Puts;
    var entry := LocalEntry(crc, name, i, m);
    LoadStep(b, pos, []);
    assert [] + Load(b, pos).sent == Load(b, pos).sent;
    SeekCut(b, pos, crc, name, i, m);
    if pos + |entry| <= |b| {
      var data := pos + |entry|;
      CutData(b, pos, entry, m);
      SendCut(b, data, m);
      SizeThen(CodSize(|m|), SendData(b, data, |m|).sent, Puts(m));
    }
  }

  lemma CutData(b: seq<byte>, pos: nat, entry: seq<byte>, m: seq<byte>)
    requires pos + |entry| <= |b| < pos + |entry| + |m| && b[pos..] == (entry + m)[..|b| - pos]
    ensures b[pos + |entry|..] == m[..|b| - pos - |entry|]
  {
    DropDrop(b, pos, |entry|);
  }

  lemma SizeThen(size: Command, s: seq<Command>, all: seq<Command>)
    requires s <= all
    ensures [] + [size] + s <= [size] + all
  {
    assert all == s + all[|s|..];
    assert [size] + all == ([] + [size] + s) + all[|s|..];
  }

  /** The header of a cut module is either cut itself, or gives the size and the place of what there is. */
  lemma SeekCut(b: seq<byte>, pos: nat, crc: Crc, name: seq<byte>, i: nat, m: seq<byte>)
    requires pos < |b| && m != [] && |m| < MAX32 && |FileName(name, i)| < MAX16
    requires |b| - pos < |LocalEntry(crc, name, i, m)| + |m|
    requires b[pos..] == (LocalEntry(crc, name, i, m) + m)[..|b| - pos]
    ensures Seek(b, pos) == if pos + |LocalEntry(crc, name, i, m)| <= |b|
                            then Sought(|m|, pos + |LocalEntry(crc, name, i, m)|) else Malformed
  {
    hide LocalHeader, At16, At32;
    var h := LocalHeader(crc(m), |m|, |FileName(name, i)|);
    var whole := LOCAL_SIG + h + (FileName(name, i) + m);
    assert LocalEntry(crc, name, i, m) + m == whole;
    LocalFields(crc(m), |m|, |FileName(name, i)|);
    if |b| - pos >= 4 {
      EntryHead(h, FileName(name, i) + m);
      DropSlice(b, pos, 0, 4);
      assert b[pos..][0..4] == whole[0..4];
      if |b| - pos >= 4 + LOCAL_SIZE {
        DropSlice(b, pos, 4, 4 + LOCAL_SIZE);
        assert b[pos..][4..4 + LOCAL_SIZE] == whole[4..4 + LOCAL_SIZE];
      }
    }
  }

  /** Modules that a file has to hold for the reading to go on behind them. */
  predicate NoneEmpty(mods: Modules) {
    forall n :: n in mods ==> n != []
  }

  /** A piece of a packed module. */
  predicate IsCut(cut: seq<byte>, whole: seq<byte>) {
    0 < |cut| < |whole| && cut == whole[..|cut|]
  }

  lemma FewerModules(name: seq<byte>, i: nat, mods: Modules)
    requires SizesFit(mods) && NamesFit(name, i, |mods|) && NoneEmpty(mods) && mods != []
    ensures SizesFit(mods[1..]) && NamesFit(name, i + 1, |mods| - 1) && NoneEmpty(mods[1..])
    ensures mods[0] != [] && |mods[0]| < MAX32 && |FileName(name, i)| < MAX16
  {
    hide FileName;
    assert mods[0] in mods;
    forall n | n in mods[1..] ensures n in mods && n != [] {
      assert n in mods;
    }
  }

  lemma {:induction false} CutBody(b: seq<byte>, pos: nat, crc: Crc, name: seq<byte>, i: nat, mods: Modules,
                                   m: seq<byte>, cut: seq<byte>)
    requires pos <= |b| < MAX32 && b[pos..] == Body(crc, name, i, mods) + cut
    requires SizesFit(mods) && NamesFit(name, i, |mods|) && NoneEmpty(mods)
    requires m != [] && |m| < MAX32 && |FileName(name, i + |mods|)| < MAX16
    requires IsCut(cut, LocalEntry(crc, name, i + |mods|, m) + m)
    ensures !Load(b, pos).ok
    ensures AllCommands(mods) <= Load(b, pos).sent <= AllCommands(mods) + ModuleCommands(m)
    decreases |mods|
  {
    hide LocalEntry, Load, ModuleCommands, FileName, Body, SizesFit, NamesFit, NoneEmpty;
    if mods == [] {
      Unlisted(crc, name, i, 0);
      assert [] + cut == cut;
      CutModule(b, pos, crc, name, i, m);
      assert [] + ModuleCommands(m) == ModuleCommands(m);
    } else {
      var first, rest := mods[0], Body(crc, name, i + 1, mods[1..]);
      FewerModules(name, i, mods);
      Unfolded(crc, name, i, mods, 0);
      Assoc(LocalEntry(crc, name, i, first) + first, rest, cut);
      Assoc(LocalEntry(crc, name, i, first), first, rest + cut);
      LoadModule(b, pos, crc, name, i, first, rest + cut);
      CutBody(b, pos + |LocalEntry(crc, name, i, first)| + |first|, crc, name, i + 1, mods[1..], m, cut);
      Between(ModuleCommands(first), AllCommands(mods[1..]),
              Load(b, pos + |LocalEntry(crc, name, i, first)| + |first|).sent, ModuleCommands(m));
    }
  }

  lemma Between<T>(a: seq<T>, b: seq<T>, s: seq<T>, c: seq<T>)
    requires b <= s <= b + c
    ensures a + b <= a + s <= (a + b) + c
  {
    assert s == b + s[|b|..];
    assert a + s == (a + b) + s[|b|..];
    assert b + c == s + (b + c)[|s|..];
    assert (a + b) + c == (a + s) + (b + c)[|s|..];
  }

  /** A saved file that was cut inside a module: the modules in front of the cut are sent whole, the cut one at
   * most in part, and the failure is noticed. */
  lemma CutFileFails(crc: Crc, name: seq<byte>, mods: Modules, m: seq<byte>, k: nat)
    requires SizesFit(mods) && NamesFit(name, 0, |mods|) && NoneEmpty(mods)
    requires m != [] && |m| < MAX32 && |FileName(name, |mods|)| < MAX16
    requires 0 < k < |LocalEntry(crc, name, |mods|, m)| + |m| && |Body(crc, name, 0, mods)| + k < MAX32
    ensures var s := Load(Body(crc, name, 0, mods) + (LocalEntry(crc, name, |mods|, m) + m)[..k], 0);
            !s.ok && AllCommands(mods) <= s.sent <= AllCommands(mods) + ModuleCommands(m)
  {
    hide LocalEntry, Load, ModuleCommands, FileName, Body;
    var cut := (LocalEntry(crc, name, |mods|, m) + m)[..k];
    var b := Body(crc, name, 0, mods) + cut;
    assert b[0..] == b;
    CutBody(b, 0, crc, name, 0, mods, m, cut);
  }

  // -------------------------------------------------------------- other writers

  /** A packed module as another program may have written it: any header that tells the lengths, any name, and an
   * extra field. */
  datatype Entry = Entry(header: seq<byte>, name: seq<byte>, extra: seq<byte>, m: seq<byte>)

  predicate Tells(e: Entry) {
    && |e.header| == 26 && e.m != [] && |e.m| < MAX32
    && FromLE32(e.header[14..18]) == |e.m| && FromLE16(e.header[22..24]) == |e.name|
    && FromLE16(e.header[24..26]) == |e.extra|
  }

  function Packed(e: Entry): seq<byte> {
    Text("PK") + [3, 4] + e.header + e.name + e.extra + e.m
  }

  function AllPacked(entries: seq<Entry>): seq<byte> {
    if entries == [] then [] else Packed(entries[0]) + AllPacked(entries[1..])
  }

  function ModulesOf(entries: seq<Entry>): Modules {
    if entries == [] then [] else [entries[0].m] + ModulesOf(entries[1..])
  }

  lemma SeekPacked(b: seq<byte>, pos: nat, e: Entry, behind: seq<byte>)
    requires pos <= |b| && Tells(e) && b[pos..] == Packed(e) + behind
    ensures var data := pos + 30 + |e.name| + |e.extra|;
            && Seek(b, pos) == Sought(|e.m|, data) && data + |e.m| <= |b|
            && b[data..data + |e.m|] == e.m && b[data + |e.m|..] == behind
  {
    hide FromLE32, FromLE16;
    Signatures();
    var n: nat := 30 + |e.name| + |e.extra|;
    PackedPlaces(e, behind);
    DropSlice(b, pos, 0, 4);
    DropSlice(b, pos, 4, 30);
    DropSlice(b, pos, n, n + |e.m|);
    DropDrop(b, pos, n + |e.m|);
  }

  lemma PackedPlaces(e: Entry, behind: seq<byte>)
    requires |e.header| == 26
    ensures var s := Packed(e) + behind; var n := 30 + |e.name| + |e.extra|;
            && s[0..4] == Text("PK") + [3, 4] && s[4..30] == e.header
            && s[n..n + |e.m|] == e.m && s[n + |e.m|..] == behind
  {
    var s: seq<byte> := Packed(e) + behind;
    assert s == Text("PK") + [3, 4] + (e.header + (e.name + e.extra + (e.m + behind)));
    assert s == (Text("PK") + [3, 4] + e.header + e.name + e.extra) + (e.m + behind);
  }

  /** A file of packed modules is loaded whoever has written it: all modules are sent, and the reading ends where
   * the file does or another signature of the format follows. */
  lemma {:induction false} AnyFileLoads(b: seq<byte>, pos: nat, entries: seq<Entry>, tail: seq<byte>)
    requires pos <= |b| < MAX32 && b[pos..] == AllPacked(entries) + tail && (tail == [] || Ends(tail))
    requires forall e :: e in entries ==> Tells(e)
    ensures Load(b, pos) == Session(AllCommands(ModulesOf(entries)), true)
    decreases |entries|
  {
    hide Load, Seek, SendData, Packed, ModuleCommands, Puts;
    if entries == [] {
      assert [] + tail == tail;
      if tail == [] {
        LoadsNothing(b, pos);
      } else {
        LoadEnds(b, pos, tail);
      }
    } else {
      var e, rest := entries[0], entries[1..];
      var behind := AllPacked(rest) + tail;
      Assoc(Packed(e), AllPacked(rest), tail);
      SeekPacked(b, pos, e, behind);
      var data := pos + 30 + |e.name| + |e.extra|;
      SendDataIs(b, data, e.m);
      LoadStep(b, pos, []);
      AnyFileLoads(b, data + |e.m|, rest, tail);
      SentThen(CodSize(|e.m|), Puts(e.m), AllCommands(ModulesOf(rest)), Load(b, pos).sent);
      ModulesCons(e, rest);
    }
  }

  lemma LoadsNothing(b: seq<byte>, pos: nat)
    requires pos == |b| < MAX32
    ensures Load(b, pos) == Session([], true)
  {
  }

  lemma SentThen(size: Command, puts: seq<Command>, more: seq<Command>, sent: seq<Command>)
    requires [] + sent == ([] + [size] + puts) + more
    ensures sent == ([size] + puts) + more
  {
    assert [] + sent == sent && [] + [size] + puts == [size] + puts;
  }

  lemma ModulesCons(e: Entry, rest: seq<Entry>)
    ensures AllCommands(ModulesOf([e] + rest)) == ([CodSize(|e.m|)] + Puts(e.m)) + AllCommands(ModulesOf(rest))
  {
    hide Puts;
    assert ([e] + rest)[1..] == rest;
    assert ([e.m] + ModulesOf(rest))[1..] == ModulesOf(rest);
  }
}
