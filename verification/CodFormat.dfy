/** The packed .cod container: the layout of APPNOTE.TXT sections 4.3.7, 4.3.12 and 4.3.16. */
module CodFormat {
  import opened Bytes

  const SIMPLE: seq<byte> := [0xDE, 0xC0]
  const PKZIP: seq<byte> := [0x50, 0x4B]
  const LOCAL_SIG: seq<byte> := [0x50, 0x4B, 0x03, 0x04]
  const DIRECTORY_SIG: seq<byte> := [0x50, 0x4B, 0x01, 0x02]
  const END_SIG: seq<byte> := [0x50, 0x4B, 0x05, 0x06]
  const LOCAL_SIZE := 26
  const ENTRY_SIZE := 42
  const END_SIZE := 18
  const COD: seq<byte> := [0x2e, 0x63, 0x6f, 0x64]
  const HYPHEN: byte := 0x2d

  /** The checksum is not interpreted; without zlib it is constantly zero. */
  type Crc = seq<byte> -> nat

  function Decimal(n: nat): (s: seq<byte>)
    ensures |s| >= 1
  {
    if n < 10 then [0x30 + n] else Decimal(n / 10) + [0x30 + n % 10]
  }

  function FileName(name: seq<byte>, i: nat): seq<byte> {
    if i == 0 then name + COD else name + [HYPHEN] + Decimal(i) + COD
  }

  /** Version 10, stored, no time, no extra field; both sizes are the module's. */
  function LocalHeader(crc: nat, size: nat, nameLength: nat): (h: seq<byte>)
    ensures |h| == LOCAL_SIZE
  {
    LE16(10) + Zeros(8) + LE32(crc) + LE32(size) + LE32(size) + LE16(nameLength) + LE16(0)
  }

  function DirectoryEntry(crc: nat, size: nat, nameLength: nat, offset: nat): (h: seq<byte>)
    ensures |h| == ENTRY_SIZE
  {
    LE16(10) + LE16(10) + Zeros(8) + LE32(crc) + LE32(size) + LE32(size) + LE16(nameLength) + Zeros(12) + LE32(offset)
  }

  function EndRecord(count: nat, length: nat, offset: nat): (h: seq<byte>)
    ensures |h| == END_SIZE
  {
    Zeros(4) + LE16(count) + LE16(count) + LE32(length) + LE32(offset) + LE16(0)
  }

  /** What stands in front of module i. */
  function LocalEntry(crc: Crc, name: seq<byte>, i: nat, m: seq<byte>): (h: seq<byte>)
    ensures |h| == 4 + LOCAL_SIZE + |FileName(name, i)|
  {
    LOCAL_SIG + LocalHeader(crc(m), |m|, |FileName(name, i)|) + FileName(name, i)
  }

  function Listing(crc: Crc, name: seq<byte>, i: nat, m: seq<byte>, offset: nat): (h: seq<byte>)
    ensures |h| == 4 + ENTRY_SIZE + |FileName(name, i)|
  {
    DIRECTORY_SIG + DirectoryEntry(crc(m), |m|, |FileName(name, i)|, offset) + FileName(name, i)
  }

  /** The modules, each behind its local header, from module `i` of the file on. */
  function Body(crc: Crc, name: seq<byte>, i: nat, mods: seq<seq<byte>>): seq<byte>
    decreases |mods|
  {
    if mods == [] then [] else LocalEntry(crc, name, i, mods[0]) + mods[0] + Body(crc, name, i + 1, mods[1..])
  }

  /** The directory entries; `offset` is where the local header of module `i` begins. */
  function Directory(crc: Crc, name: seq<byte>, i: nat, mods: seq<seq<byte>>, offset: nat): seq<byte>
    decreases |mods|
  {
    if mods == [] then [] else
      Listing(crc, name, i, mods[0], offset)
      + Directory(crc, name, i + 1, mods[1..], offset + |LocalEntry(crc, name, i, mods[0])| + |mods[0]|)
  }

  /** The saved file. A lone module is written as it is. */
  function Image(crc: Crc, name: seq<byte>, mods: seq<seq<byte>>): seq<byte> {
    if |mods| == 1 then mods[0] else
    var body := Body(crc, name, 0, mods);
    var directory := Directory(crc, name, 0, mods, 0);
    body + directory + END_SIG + EndRecord(|mods|, |directory|, |body|)
  }

  /** Each module fits the size field of the header. */
  predicate SizesFit(mods: seq<seq<byte>>) {
    forall m :: m in mods ==> |m| < MAX32
  }

  /** The name fits the length field of the header, for `n` modules from number `i` on. */
  predicate NamesFit(name: seq<byte>, i: nat, n: nat) {
    forall k :: i <= k < i + n ==> |FileName(name, k)| < MAX16
  }

  // ------------------------------------------------------- reading the fields

  function At16(h: seq<byte>, k: nat): nat
    requires k + 2 <= |h|
  {
    FromLE16(h[k..k + 2])
  }

  function At32(h: seq<byte>, k: nat): nat
    requires k + 4 <= |h|
  {
    FromLE32(h[k..k + 4])
  }

  /** Every field of a local header, at its place. */
  lemma LocalFields(crc: nat, size: nat, nameLength: nat)
    requires size < MAX32 && nameLength < MAX16
    ensures var h := LocalHeader(crc, size, nameLength);
            && At16(h, 0) == 10 && At16(h, 2) == 0 && At16(h, 4) == 0 && At16(h, 6) == 0 && At16(h, 8) == 0
            && At32(h, 10) == crc % MAX32 && At32(h, 14) == size && At32(h, 18) == size
            && At16(h, 22) == nameLength && At16(h, 24) == 0
  {
    hide LE16, LE32, FromLE16, FromLE32;
    var h := LocalHeader(crc, size, nameLength);
    assert h[0..2] == LE16(10) && h[10..14] == LE32(crc) && h[14..18] == LE32(size) && h[18..22] == LE32(size);
    assert h[22..24] == LE16(nameLength) && h[24..26] == LE16(0);
    assert h[2..4] == [0, 0] && h[4..6] == [0, 0] && h[6..8] == [0, 0] && h[8..10] == [0, 0];
    ZeroField();
    RoundTrip16(10);
    RoundTrip32(crc);
    RoundTrip32(size);
    RoundTrip16(nameLength);
    RoundTrip16(0);
  }

  /** The same for a directory entry, up to where its zeros begin, and behind them. */
  lemma EntryFields(crc: nat, size: nat, nameLength: nat, offset: nat)
    requires size < MAX32 && nameLength < MAX16 && offset < MAX32
    ensures var h := DirectoryEntry(crc, size, nameLength, offset);
            && At16(h, 0) == 10 && At16(h, 2) == 10 && At16(h, 4) == 0 && At16(h, 6) == 0 && h[8..12] == Zeros(4)
            && At32(h, 12) == crc % MAX32 && At32(h, 16) == size && At32(h, 20) == size
            && At16(h, 24) == nameLength && At16(h, 26) == 0 && At16(h, 28) == 0 && h[30..38] == Zeros(8)
            && At32(h, 38) == offset
  {
    hide LE16, LE32, FromLE16, FromLE32;
    var h := DirectoryEntry(crc, size, nameLength, offset);
    assert h[0..2] == LE16(10) && h[2..4] == LE16(10) && h[12..16] == LE32(crc);
    assert h[16..20] == LE32(size) && h[20..24] == LE32(size);
    assert h[24..26] == LE16(nameLength) && h[38..42] == LE32(offset);
    assert h[4..6] == [0, 0] && h[6..8] == [0, 0] && h[26..28] == [0, 0] && h[28..30] == [0, 0];
    ZeroField();
    RoundTrip16(10);
    RoundTrip32(crc);
    RoundTrip32(size);
    RoundTrip32(offset);
    RoundTrip16(nameLength);
  }

  lemma ZeroField()
    ensures FromLE16([0, 0]) == 0
  {
  }

  lemma EndFields(count: nat, length: nat, offset: nat)
    requires length < MAX32 && offset < MAX32
    ensures var h := EndRecord(count, length, offset);
            && At16(h, 0) == 0 && At16(h, 2) == 0 && At16(h, 4) == count % MAX16 && At16(h, 6) == count % MAX16
            && At32(h, 8) == length && At32(h, 12) == offset && At16(h, 16) == 0
  {
    hide LE16, LE32, FromLE16, FromLE32;
    var h := EndRecord(count, length, offset);
    assert h[4..6] == LE16(count) && h[6..8] == LE16(count) && h[8..12] == LE32(length) && h[12..16] == LE32(offset);
    assert h[0..2] == [0, 0] && h[2..4] == [0, 0] && h[16..18] == LE16(0);
    ZeroField();
    RoundTrip16(count);
    RoundTrip32(length);
    RoundTrip32(offset);
    RoundTrip16(0);
  }

  // ----------------------------------------------------------------- appending

  lemma Unfolded(crc: Crc, name: seq<byte>, i: nat, mods: seq<seq<byte>>, offset: nat)
    requires mods != []
    ensures Body(crc, name, i, mods) == LocalEntry(crc, name, i, mods[0]) + mods[0] + Body(crc, name, i + 1, mods[1..])
    ensures Directory(crc, name, i, mods, offset)
         == Listing(crc, name, i, mods[0], offset)
            + Directory(crc, name, i + 1, mods[1..], offset + |LocalEntry(crc, name, i, mods[0])| + |mods[0]|)
  {
  }

  lemma Unlisted(crc: Crc, name: seq<byte>, i: nat, offset: nat)
    ensures Body(crc, name, i, []) == [] && Directory(crc, name, i, [], offset) == []
  {
  }

  lemma {:induction false} BodySnoc(crc: Crc, name: seq<byte>, i: nat, mods: seq<seq<byte>>, m: seq<byte>)
    ensures Body(crc, name, i, mods + [m])
         == Body(crc, name, i, mods) + (LocalEntry(crc, name, i + |mods|, m) + m)
    decreases |mods|
  {
    hide LocalEntry, Body, Directory;
    Unfolded(crc, name, i, mods + [m], 0);
    SnocParts(mods, m);
    if mods == [] {
      Unlisted(crc, name, i, 0);
      Unlisted(crc, name, i + 1, 0);
      assert LocalEntry(crc, name, i, m) + m + [] == [] + (LocalEntry(crc, name, i, m) + m);
    } else {
      Unfolded(crc, name, i, mods, 0);
      BodySnoc(crc, name, i + 1, mods[1..], m);
      Assoc(LocalEntry(crc, name, i, mods[0]) + mods[0], Body(crc, name, i + 1, mods[1..]),
            LocalEntry(crc, name, i + |mods|, m) + m);
    }
  }

  lemma {:induction false} DirectorySnoc(crc: Crc, name: seq<byte>, i: nat, mods: seq<seq<byte>>, offset: nat,
                                         m: seq<byte>)
    ensures Directory(crc, name, i, mods + [m], offset)
         == Directory(crc, name, i, mods, offset)
            + Listing(crc, name, i + |mods|, m, offset + |Body(crc, name, i, mods)|)
    decreases |mods|
  {
    hide LocalEntry, Listing, Body, Directory;
    Unfolded(crc, name, i, mods + [m], offset);
    SnocParts(mods, m);
    if mods == [] {
      Unlisted(crc, name, i, offset);
      Unlisted(crc, name, i + 1, offset + |LocalEntry(crc, name, i, m)| + |m|);
      assert Listing(crc, name, i, m, offset) + [] == [] + Listing(crc, name, i, m, offset);
    } else {
      Unfolded(crc, name, i, mods, offset);
      var next := offset + |LocalEntry(crc, name, i, mods[0])| + |mods[0]|;
      DirectorySnoc(crc, name, i + 1, mods[1..], next, m);
      assert offset + |Body(crc, name, i, mods)| == next + |Body(crc, name, i + 1, mods[1..])|;
      Assoc(Listing(crc, name, i, mods[0], offset), Directory(crc, name, i + 1, mods[1..], next),
            Listing(crc, name, i + |mods|, m, offset + |Body(crc, name, i, mods)|));
    }
  }
}
