/** Screenshots of the device as 24 or 32 bit images, and as .bmp files. */
module Bitmap {
  import opened Bytes
  import opened BufferModel
  import opened BufferRefinement
  import opened DataBuffer

  const HEADERS := 54

  /** What a screenshot is made into: `depth` is 3 or 4 bytes for a pixel. */
  datatype Target = Target(depth: nat, invert: bool, overwriteAlpha: bool, alpha: byte)
  {
    predicate Valid() {
      depth == 3 || depth == 4
    }
  }

  /** A screenshot with `unit` bytes for a pixel, the rows from top to bottom. */
  datatype Shot = Shot(width: nat, height: nat, unit: nat, bytes: seq<byte>)
  {
    predicate Valid() {
      (unit == 2 || unit == 4) && |bytes| == width * height * unit
    }

    function Row(j: nat, invert: bool): nat
      requires j < height
    {
      if invert then height - 1 - j else j
    }
  }

  lemma InImage(width: nat, height: nat, row: nat, i: nat)
    requires row < height && i < width
    ensures row * width + i < width * height
  {
    assert (row + 1) * width <= height * width;
  }

  /** The pixel in column i of a row of the screenshot. */
  function Source(s: Shot, row: nat, i: nat): (d: seq<byte>)
    requires s.Valid() && row < s.height && i < s.width
    ensures |d| == s.unit
  {
    InImage(s.width, s.height, row, i);
    var at := row * s.width + i;
    s.bytes[at * s.unit..at * s.unit + s.unit]
  }

  /** A colour of five or six bits as one of eight. */
  function Scale(c: nat, most: nat): (b: byte)
    requires c <= most && (most == 0x1F || most == 0x3F)
  {
    if most == 0x1F then c * 0xFF / 0x1F else c * 0xFF / 0x3F
  }

  function Colours(value: nat): (rgb: seq<byte>)
    ensures |rgb| == 3
  {
    [Scale(value % 32, 0x1F), Scale(value / 32 % 64, 0x3F), Scale(value / 2048 % 32, 0x1F)]
  }

  /** Blue, green, red and alpha of a pixel; 16 bit colours are scaled up. */
  function Convert(d: seq<byte>, t: Target): (p: seq<byte>)
    requires (|d| == 2 || |d| == 4) && t.Valid()
    ensures |p| == t.depth
  {
    if |d| == 2 then
      var rgb := Colours(FromLE16(d));
      if t.depth == 4 then rgb + [if t.overwriteAlpha then t.alpha else 0xFF] else rgb
    else
      if t.depth == 4 then d[..3] + [if t.overwriteAlpha then t.alpha else d[3]] else d[..3]
  }

  function Pixel(s: Shot, t: Target, j: nat, i: nat): (p: seq<byte>)
    requires s.Valid() && t.Valid() && j < s.height && i < s.width
    ensures |p| == t.depth
  {
    Convert(Source(s, s.Row(j, t.invert), i), t)
  }

  /** The first `n` pixels of row j of the image. */
  function RowOf(s: Shot, t: Target, j: nat, n: nat): seq<byte>
    requires s.Valid() && t.Valid() && j < s.height && n <= s.width
  {
    if n == 0 then [] else RowOf(s, t, j, n - 1) + Pixel(s, t, j, n - 1)
  }

  /** The first `n` rows of the image. */
  function Rows(s: Shot, t: Target, n: nat): seq<byte>
    requires s.Valid() && t.Valid() && n <= s.height
  {
    if n == 0 then [] else Rows(s, t, n - 1) + RowOf(s, t, n - 1, s.width)
  }

  function Image(s: Shot, t: Target): seq<byte>
    requires s.Valid() && t.Valid()
  {
    Rows(s, t, s.height)
  }

  // ------------------------------------------------------------------- places

  lemma {:induction false} RowSize(s: Shot, t: Target, j: nat, n: nat)
    requires s.Valid() && t.Valid() && j < s.height && n <= s.width
    ensures |RowOf(s, t, j, n)| == n * t.depth
  {
    hide Pixel;
    if n > 0 {
      RowSize(s, t, j, n - 1);
      assert n * t.depth == (n - 1) * t.depth + t.depth;
    }
  }

  lemma {:induction false} RowsSize(s: Shot, t: Target, n: nat)
    requires s.Valid() && t.Valid() && n <= s.height
    ensures |Rows(s, t, n)| == n * s.width * t.depth
  {
    hide RowOf;
    if n > 0 {
      RowsSize(s, t, n - 1);
      RowSize(s, t, n - 1, s.width);
      assert n * s.width == (n - 1) * s.width + s.width;
      Distribute((n - 1) * s.width, s.width, t.depth);
    }
  }

  lemma Distribute(a: nat, b: nat, c: nat)
    ensures (a + b) * c == a * c + b * c
  {
  }

  /** The source's own formula for the place of a pixel in the screenshot. */
  lemma OffsetIs(width: nat, height: nat, j: nat, i: nat)
    requires j < height && i < width
    ensures (width * height - 1) - ((width - 1 - i) + (width * j)) == (height - 1 - j) * width + i
    ensures 0 <= (height - 1 - j) * width + i < width * height
  {
    InImage(width, height, height - 1 - j, i);
    assert (height - 1 - j) * width == height * width - width - j * width;
  }

  lemma MulOrder(a: nat, b: nat, c: nat)
    requires a <= b
    ensures a * c <= b * c
  {
  }

  // ------------------------------------------------------- the memory written

  /** Bytes `from` to `end` behind the data start, whether they are part of the data yet or not. */
  function Region(s: Buf, from: nat, end: nat): seq<byte>
    requires s.Valid() && from <= end <= |s.block| - s.start
  {
    s.block[s.start + from..s.start + end]
  }

  lemma PokeGrows(s: Buf, from: nat, at: nat, src: seq<byte>)
    requires s.Valid() && !s.external && from <= at && at + |src| <= s.BufSize()
    ensures var r := Poke(s, at, src);
            && r.Valid() && r.BufSize() == s.BufSize() && r.size == s.size && !r.external
            && Region(r, 0, from) == Region(s, 0, from)
            && Region(r, from, at + |src|) == Region(s, from, at) + src
  {
    SpliceGrows(s.block, s.start, s.start + from, s.start + at, src);
  }

  lemma SpliceGrows(base: seq<byte>, low: nat, mid: nat, at: nat, src: seq<byte>)
    requires low <= mid <= at && at + |src| <= |base|
    ensures var r := Splice(base, at, src);
            r[low..mid] == base[low..mid] && r[mid..at + |src|] == base[mid..at] + src
  {
    hide Splice;
    SpliceReads(base, at, src);
    var r := Splice(base, at, src);
    assert r[low..mid] == r[..at][low..mid] && base[low..mid] == base[..at][low..mid];
    assert r[mid..at] == r[..at][mid..] && base[mid..at] == base[..at][mid..];
    assert r[mid..at + |src|] == r[mid..at] + r[at..at + |src|];
  }

  /** Writes a block of pixels of row j in place, and moves on. */
  method WritePixel(buffer: Data, write: nat, p: seq<byte>, ghost from: nat) returns (next: nat)
    requires buffer.Valid() && !buffer.external && from <= write && write + |p| <= buffer.state.BufSize()
    modifies buffer.memBlock, buffer`state
    ensures buffer.Valid() && !buffer.external && next == write + |p|
    ensures buffer.state.BufSize() == old(buffer.state.BufSize()) && buffer.state.size == old(buffer.state.size)
    ensures Region(buffer.state, 0, from) == old(Region(buffer.state, 0, from))
    ensures Region(buffer.state, from, next) == old(Region(buffer.state, from, write)) + p
  {
    hide BufferModel.Poke, Buf.Valid, Region;
    PokeGrows(buffer.state, from, write, p);
    buffer.Poke(write, p);
    next := write + |p|;
  }

  // ----------------------------------------------------------------- the loops

  /** Two or four bytes for every pixel. */
  predicate FitsPixels(size: nat, pixels: nat) {
    size == 2 * pixels || size == 4 * pixels
  }

  function UnitOf(size: nat, pixels: nat): (unit: nat)
    ensures FitsPixels(size, pixels) ==> size == unit * pixels
  {
    if size == 2 * pixels then 2 else 4
  }

  /** How many bytes a pixel of the screenshot has, or false if there is no such number. */
  method FindUnit(size: nat, pixels: nat) returns (unit: nat, ok: bool)
    requires pixels > 0 || size == 0
    ensures ok <==> FitsPixels(size, pixels)
    ensures ok ==> size == pixels * unit && unit == UnitOf(size, pixels)
  {
    unit := 2;
    while size > unit * pixels
      invariant unit >= 2 && (unit > 2 ==> size > (unit - 1) * pixels)
      decreases size - unit * pixels
    {
      assert (unit + 1) * pixels == unit * pixels + pixels;
      unit := unit + 1;
    }
    if unit > 4 {
      MulOrder(4, unit - 1, pixels);
    }
    ok := size >= pixels * unit && (unit == 2 || unit == 4);
  }

  /** What becomes of the buffer: asked for room, written from `offset` on, and released. */
  ghost predicate Rendered(was: Buf, now: Buf, offset: nat, image: seq<byte>)
    requires was.Valid()
  {
    && GetBuffer(was, offset + |image|).Valid() && GetBuffer(was, offset + |image|).BufSize() >= offset
    && now.Valid() && now.size == offset + |image| && !now.external
    && now.Content()[..offset] == Region(GetBuffer(was, offset + |image|), 0, offset)
    && now.Content()[offset..] == image
  }

  /** False where the C++ code throws. Without pixels any data would be scanned for ever. */
  method ScreenshotToRGB(width: nat, height: nat, screenshot: Data, buffer: Data, offset: nat, depth: nat,
                         invert: bool, overwriteAlpha: bool := false, alpha: byte := 0xFF)
    returns (ok: bool)
    requires width < MAX16 && height < MAX16 && width * height <= 0x8000_0000
    requires screenshot.Valid() && buffer.Valid() && screenshot != buffer && screenshot.memBlock != buffer.memBlock
    requires width * height > 0 || screenshot.Content() == []
    modifies buffer, buffer.memBlock
    ensures buffer.Valid() && (buffer.memBlock == old(buffer.memBlock) || fresh(buffer.memBlock))
    ensures ok <==> (depth == 24 || depth == 32) && FitsPixels(|screenshot.Content()|, width * height)
    ensures !ok ==> buffer.state == old(buffer.state)
    ensures ok ==>
              var c := screenshot.Content(); var s := Shot(width, height, UnitOf(|c|, width * height), c);
              var t := Target(depth / 8, invert, overwriteAlpha, alpha);
              s.Valid() && Rendered(old(buffer.state), buffer.state, offset, Image(s, t))
  {
    hide Rows, Convert, BufferModel.GetBuffer, BufferModel.MakeSpace, Region, Rendered;
    if depth != 24 && depth != 32 {
      return false;
    }
    var data := screenshot.GetData();
    var unit, found := FindUnit(|data|, width * height);
    if !found {
      return false;
    }
    var s, t := Shot(width, height, unit, data), Target(depth / 8, invert, overwriteAlpha, alpha);
    Draw(s, t, buffer, offset);
    ok := true;
  }

  method DrawRow(s: Shot, t: Target, buffer: Data, j: nat, start: nat, ghost from: nat) returns (write: nat)
    requires s.Valid() && t.Valid() && j < s.height
    requires buffer.Valid() && !buffer.external && from <= start
    requires start + s.width * t.depth <= buffer.state.BufSize()
    modifies buffer.memBlock, buffer`state
    ensures buffer.Valid() && !buffer.external && write == start + s.width * t.depth
    ensures buffer.state.BufSize() == old(buffer.state.BufSize()) && buffer.state.size == old(buffer.state.size)
    ensures Region(buffer.state, 0, from) == old(Region(buffer.state, 0, from))
    ensures Region(buffer.state, from, write) == old(Region(buffer.state, from, start)) + RowOf(s, t, j, s.width)
  {
    hide Region, Convert, Buf.Valid;
    write := start;
    ghost var before := Region(buffer.state, from, start);
    assert before + [] == before;
    for i := 0 to s.width
      invariant buffer.Valid() && !buffer.external && write == start + i * t.depth
      invariant buffer.state.BufSize() == old(buffer.state.BufSize()) && buffer.state.size == old(buffer.state.size)
      invariant Region(buffer.state, 0, from) == old(Region(buffer.state, 0, from))
      invariant Region(buffer.state, from, write) == before + RowOf(s, t, j, i)
    {
      var pixel := ReadPixel(s, t, j, i);
      MulOrder(i + 1, s.width, t.depth);
      Distribute(i, 1, t.depth);
      write := WritePixel(buffer, write, pixel, from);
      assert before + RowOf(s, t, j, i) + pixel == before + RowOf(s, t, j, i + 1);
    }
  }

  method ReadPixel(s: Shot, t: Target, j: nat, i: nat) returns (pixel: seq<byte>)
    requires s.Valid() && t.Valid() && j < s.height && i < s.width
    ensures pixel == Pixel(s, t, j, i)
  {
    hide Convert;
    var getOffset := j * s.width + i;
    OffsetIs(s.width, s.height, j, i);
    InImage(s.width, s.height, j, i);
    if t.invert {
      getOffset := (s.width * s.height - 1) - ((s.width - 1 - i) + (s.width * j));
    }
    MulOrder(getOffset + 1, s.width * s.height, s.unit);
    pixel := Convert(s.bytes[getOffset * s.unit..getOffset * s.unit + s.unit], t);
  }

  method Draw(s: Shot, t: Target, buffer: Data, offset: nat)
    requires s.Valid() && t.Valid() && buffer.Valid()
    modifies buffer, buffer.memBlock
    ensures buffer.Valid() && (buffer.memBlock == old(buffer.memBlock) || fresh(buffer.memBlock))
    ensures Rendered(old(buffer.state), buffer.state, offset, Image(s, t))
  {
    hide Pixel, BufferModel.GetBuffer, BufferModel.MakeSpace, Region, Buf.Valid, Buf.Content, RowOf, Rows, RowStart;
    var total := s.width * s.height * t.depth + offset;
    RowsSize(s, t, s.height);
    FirstAndLastRow(s, t);
    GetBufferFits(buffer.state, total);
    buffer.GetBuffer(total);
    ghost var front := Region(buffer.state, 0, offset);
    var write := offset;
    NothingDrawn(s, t, buffer.state, offset);
    for j := 0 to s.height
      invariant buffer.Valid() && !buffer.external
      invariant buffer.memBlock == old(buffer.memBlock) || fresh(buffer.memBlock)
      invariant buffer.state.BufSize() >= total >= write && write == offset + RowStart(s, t, j)
      invariant Region(buffer.state, 0, offset) == front
      invariant Region(buffer.state, offset, write) == Rows(s, t, j)
    {
      RowEnd(s, t, j);
      write := DrawRow(s, t, buffer, j, write, offset);
      RowsStep(s, t, j);
    }
    Released(buffer.state, offset, total);
    var ok := buffer.ReleaseBuffer(total);
  }

  lemma NothingDrawn(s: Shot, t: Target, b: Buf, offset: nat)
    requires s.Valid() && t.Valid() && b.Valid() && offset <= |b.block| - b.start
    ensures Region(b, offset, offset) == Rows(s, t, 0)
  {
  }

  function RowStart(s: Shot, t: Target, j: nat): nat {
    j * s.width * t.depth
  }

  lemma FirstAndLastRow(s: Shot, t: Target)
    ensures RowStart(s, t, 0) == 0 && RowStart(s, t, s.height) == s.width * s.height * t.depth
  {
    assert s.height * s.width == s.width * s.height;
  }

  lemma RowEnd(s: Shot, t: Target, j: nat)
    requires j < s.height
    ensures RowStart(s, t, j) + s.width * t.depth == RowStart(s, t, j + 1) <= s.width * s.height * t.depth
  {
    Distribute(j, 1, s.width);
    Distribute(j * s.width, s.width, t.depth);
    MulOrder(j + 1, s.height, s.width);
    MulOrder((j + 1) * s.width, s.width * s.height, t.depth);
  }

  lemma RowsStep(s: Shot, t: Target, j: nat)
    requires s.Valid() && t.Valid() && j < s.height
    ensures Rows(s, t, j) + RowOf(s, t, j, s.width) == Rows(s, t, j + 1)
  {
  }

  lemma Released(b: Buf, offset: nat, total: nat)
    requires b.Valid() && !b.external && offset <= total <= b.BufSize()
    ensures var r := b.(size := total);
            && CanRelease(b, total) && r.Valid()
            && r.Content()[..offset] == Region(b, 0, offset) && r.Content()[offset..] == Region(b, offset, total)
  {
    assert b.block[b.start..b.start + total][..offset] == b.block[b.start..b.start + offset];
  }
}
