/** Where the pixels of a converted screenshot are, and .bmp files. */
module BitmapFile {
  import opened Bytes
  import opened BufferModel
  import opened BufferRefinement
  import opened DataBuffer
  import opened Bitmap

  // ---------------------------------------------------------- where a pixel is

  lemma {:induction false} RowAt(s: Shot, t: Target, j: nat, n: nat, i: nat)
    requires s.Valid() && t.Valid() && j < s.height && i < n <= s.width
    ensures |RowOf(s, t, j, n)| == n * t.depth && 0 <= i * t.depth <= i * t.depth + t.depth <= n * t.depth
    ensures RowOf(s, t, j, n)[i * t.depth..i * t.depth + t.depth] == Pixel(s, t, j, i)
  {
    hide Pixel;
    RowSize(s, t, j, n);
    RowSize(s, t, j, n - 1);
    Distribute(i, 1, t.depth);
    MulOrder(i + 1, n, t.depth);
    if i < n - 1 {
      RowAt(s, t, j, n - 1, i);
      Front(RowOf(s, t, j, n - 1), Pixel(s, t, j, n - 1), i * t.depth, t.depth);
    } else {
      Back(RowOf(s, t, j, n - 1), Pixel(s, t, j, n - 1), 0, t.depth);
    }
  }

  lemma Front(a: seq<byte>, b: seq<byte>, at: nat, n: nat)
    requires at + n <= |a|
    ensures (a + b)[at..at + n] == a[at..at + n]
  {
  }

  lemma Back(a: seq<byte>, b: seq<byte>, at: nat, n: nat)
    requires at + n <= |b|
    ensures (a + b)[|a| + at..|a| + at + n] == b[at..at + n]
  {
  }

  lemma {:induction false} RowsAt(s: Shot, t: Target, n: nat, j: nat, i: nat)
    requires s.Valid() && t.Valid() && j < n <= s.height && i < s.width
    ensures var at := j * s.width * t.depth + i * t.depth;
            0 <= at && at + t.depth <= |Rows(s, t, n)| && Rows(s, t, n)[at..at + t.depth] == Pixel(s, t, j, i)
  {
    hide Pixel, RowOf;
    var above, row := Rows(s, t, n - 1), RowOf(s, t, n - 1, s.width);
    RowsSize(s, t, n - 1);
    if j < n - 1 {
      RowsAt(s, t, n - 1, j, i);
      Front(above, row, j * s.width * t.depth + i * t.depth, t.depth);
    } else {
      RowAt(s, t, j, s.width, i);
      Back(above, row, i * t.depth, t.depth);
    }
  }

  /** Row j of the image is row j of the screenshot, or counted from the other end if it is inverted. */
  lemma ImageAt(s: Shot, t: Target, j: nat, i: nat)
    requires s.Valid() && t.Valid() && j < s.height && i < s.width
    ensures var at := (j * s.width + i) * t.depth;
            && at + t.depth <= |Image(s, t)|
            && Image(s, t)[at..at + t.depth] == Convert(Source(s, if t.invert then s.height - 1 - j else j, i), t)
  {
    hide Rows, Convert, Source;
    RowsAt(s, t, s.height, j, i);
    Distribute(j * s.width, i, t.depth);
  }

  // -------------------------------------------------------------- round trips

  /** 32 bit pixels that keep their alpha value. */
  predicate Faithful(s: Shot, t: Target) {
    s.Valid() && s.unit == 4 && t.depth == 4 && !t.overwriteAlpha
  }

  lemma FaithfulPixel(s: Shot, t: Target, j: nat, i: nat)
    requires Faithful(s, t) && j < s.height && i < s.width
    ensures Pixel(s, t, j, i) == Source(s, if t.invert then s.height - 1 - j else j, i)
  {
    var d := Source(s, if t.invert then s.height - 1 - j else j, i);
    assert d[..3] + [d[3]] == d;
  }

  lemma {:induction false} PlainRow(s: Shot, t: Target, j: nat, n: nat)
    requires Faithful(s, t) && !t.invert && j < s.height && n <= s.width
    ensures j * s.width * 4 + n * 4 <= |s.bytes|
    ensures RowOf(s, t, j, n) == s.bytes[j * s.width * 4..j * s.width * 4 + n * 4]
  {
    hide Pixel, Source;
    RowInside(s, j, n);
    var start := j * s.width * 4;
    if n == 0 {
      assert s.bytes[start..start] == [];
    } else {
      PlainRow(s, t, j, n - 1);
      FaithfulPixel(s, t, j, n - 1);
      SourceAt(s, j, n - 1);
      var mid := start + (n - 1) * 4;
      assert s.bytes[start..mid] + s.bytes[mid..mid + 4] == s.bytes[start..mid + 4];
    }
  }

  lemma RowInside(s: Shot, j: nat, n: nat)
    requires s.Valid() && s.unit == 4 && j < s.height && n <= s.width
    ensures 0 <= j * s.width * 4 <= j * s.width * 4 + n * 4 <= |s.bytes|
  {
    MulOrder(j + 1, s.height, s.width);
    Distribute(j, 1, s.width);
    MulOrder(0, j, s.width);
  }

  lemma SourceAt(s: Shot, j: nat, i: nat)
    requires s.Valid() && s.unit == 4 && j < s.height && i < s.width
    ensures var at := j * s.width * 4 + i * 4;
            0 <= at && at + 4 <= |s.bytes| && Source(s, j, i) == s.bytes[at..at + 4]
  {
    RowInside(s, j, i + 1);
    Distribute(j * s.width, i, 4);
  }

  lemma {:induction false} PlainRows(s: Shot, t: Target, n: nat)
    requires Faithful(s, t) && !t.invert && n <= s.height
    ensures n * s.width * 4 <= |s.bytes| && Rows(s, t, n) == s.bytes[..n * s.width * 4]
  {
    hide RowOf;
    MulOrder(n, s.height, s.width);
    if n > 0 {
      PlainRows(s, t, n - 1);
      PlainRow(s, t, n - 1, s.width);
      Distribute(n - 1, 1, s.width);
      Joined(s.bytes, (n - 1) * s.width * 4, n * s.width * 4);
    }
  }

  lemma Joined(b: seq<byte>, mid: nat, end: nat)
    requires mid <= end <= |b|
    ensures b[..mid] + b[mid..end] == b[..end]
  {
  }

  lemma {:induction false} SameRows(a: Shot, t: Target, b: Shot, u: Target, n: nat)
    requires a.Valid() && b.Valid() && t.Valid() && u.Valid() && a.width == b.width && a.height == b.height
    requires forall j: nat, i: nat :: j < a.height && i < a.width ==> Pixel(a, t, j, i) == Pixel(b, u, j, i)
    requires n <= a.height
    ensures Rows(a, t, n) == Rows(b, u, n)
  {
    hide Pixel;
    if n > 0 {
      SameRows(a, t, b, u, n - 1);
      SameRow(a, t, b, u, n - 1, a.width);
    }
  }

  lemma {:induction false} SameRow(a: Shot, t: Target, b: Shot, u: Target, j: nat, n: nat)
    requires a.Valid() && b.Valid() && t.Valid() && u.Valid() && a.width == b.width && a.height == b.height
    requires forall j: nat, i: nat :: j < a.height && i < a.width ==> Pixel(a, t, j, i) == Pixel(b, u, j, i)
    requires j < a.height && n <= a.width
    ensures RowOf(a, t, j, n) == RowOf(b, u, j, n)
  {
    hide Pixel;
    if n > 0 {
      SameRow(a, t, b, u, j, n - 1);
    }
  }

  /** Without inversion a 32 bit screenshot that keeps its alpha is copied, and inverting it twice gives
   * it back. */
  lemma Involution(s: Shot, t: Target)
    requires Faithful(s, t)
    ensures !t.invert ==> Image(s, t) == s.bytes
    ensures var once := Shot(s.width, s.height, 4, Image(s, t)); once.Valid() && Image(once, t) == s.bytes
  {
    hide Rows, Pixel, Source;
    var plain := t.(invert := false);
    var once := Shot(s.width, s.height, 4, Image(s, t));
    RowsSize(s, t, s.height);
    assert s.height * s.width == s.width * s.height;
    PlainRows(s, plain, s.height);
    assert s.bytes[..|s.bytes|] == s.bytes;
    forall j: nat, i: nat | j < s.height && i < s.width ensures Pixel(once, t, j, i) == Pixel(s, plain, j, i) {
      TwicePixel(s, t, once, j, i);
    }
    SameRows(once, t, s, plain, s.height);
  }

  lemma TwicePixel(s: Shot, t: Target, once: Shot, j: nat, i: nat)
    requires Faithful(s, t) && once == Shot(s.width, s.height, 4, Image(s, t)) && once.Valid()
    requires j < s.height && i < s.width
    ensures Pixel(once, t, j, i) == Pixel(s, t.(invert := false), j, i)
  {
    hide Rows, Pixel;
    var row := if t.invert then s.height - 1 - j else j;
    FaithfulPixel(once, t, j, i);
    RowsAt(s, t, s.height, row, i);
    Distribute(row * s.width, i, 4);
    FaithfulPixel(s, t, row, i);
    FaithfulPixel(s, t.(invert := false), j, i);
  }

  /** A 16 bit pixel has blue in its lowest five bits, then green in six, and red; the converted one has blue first
   * and an opaque alpha value, unless another one is wanted. */
  lemma ShortPixel(red: nat, green: nat, blue: nat, t: Target)
    requires red < 32 && green < 64 && blue < 32 && t.Valid()
    ensures var v := 2048 * red + 32 * green + blue;
            && v < 0x1_0000
            && var p := Convert([v % 0x100, v / 0x100], t);
               && p[0] == blue * 255 / 31 && p[1] == green * 255 / 63 && p[2] == red * 255 / 31
               && (t.depth == 4 ==> p[3] == if t.overwriteAlpha then t.alpha else 0xFF)
  {
    hide Scale;
    var v := 2048 * red + 32 * green + blue;
    FieldsOf(red, green, blue);
    assert FromLE16([v % 0x100, v / 0x100]) == v;
    ScaleIs(blue, 0x1F);
    ScaleIs(green, 0x3F);
    ScaleIs(red, 0x1F);
  }

  lemma FieldsOf(red: nat, green: nat, blue: nat)
    requires red < 32 && green < 64 && blue < 32
    ensures var v := 2048 * red + 32 * green + blue;
            v < 0x1_0000 && v % 32 == blue && v / 32 % 64 == green && v / 2048 % 32 == red
  {
  }

  lemma ScaleIs(c: nat, most: nat)
    requires c <= most && (most == 0x1F || most == 0x3F)
    ensures Scale(c, most) == c * 255 / most
  {
  }

  /** A 32 bit pixel keeps its three colours; its alpha value is kept, replaced or dropped. */
  lemma LongPixel(d: seq<byte>, t: Target)
    requires |d| == 4 && t.Valid()
    ensures Convert(d, t) == d[..3] + if t.depth == 3 then [] else if t.overwriteAlpha then [t.alpha] else [d[3]]
  {
  }

  /** Scaling up keeps all 16 bit colours apart, and black and white what they are. */
  lemma ColoursStayApart(c: seq<byte>, d: seq<byte>, t: Target)
    requires |c| == 2 && |d| == 2 && t.Valid()
    ensures Convert(c, t) == Convert(d, t) <==> c == d
  {
    hide Colours, FromLE16;
    var v, w := FromLE16(c), FromLE16(d);
    var p, q := Convert(c, t), Convert(d, t);
    if p == q {
      assert Colours(v) == p[..3] && Colours(w) == q[..3];
      SameColours(v, w);
      BytesOf(c);
      BytesOf(d);
    }
  }

  lemma BytesOf(c: seq<byte>)
    requires |c| == 2
    ensures LE16(FromLE16(c)) == c
  {
  }

  lemma SameColours(v: nat, w: nat)
    requires v < MAX16 && w < MAX16 && Colours(v) == Colours(w)
    ensures v == w
  {
    hide Scale;
    assert Colours(v)[0] == Colours(w)[0] && Colours(v)[1] == Colours(w)[1] && Colours(v)[2] == Colours(w)[2];
    ScaleApart(v % 32, w % 32, 0x1F);
    ScaleApart(v / 32 % 64, w / 32 % 64, 0x3F);
    ScaleApart(v / 2048 % 32, w / 2048 % 32, 0x1F);
    Bits(v);
    Bits(w);
  }

  lemma ScaleApart(a: nat, b: nat, most: nat)
    requires a <= most && b <= most && (most == 0x1F || most == 0x3F)
    ensures Scale(a, most) == Scale(b, most) <==> a == b
    ensures Scale(0, most) == 0 && Scale(most, most) == 0xFF
  {
  }

  lemma Bits(v: nat)
    requires v < MAX16
    ensures v == v % 32 + 32 * (v / 32 % 64) + 2048 * (v / 2048 % 32)
  {
  }

  // ---------------------------------------------------------------- .bmp files

  function FileHeader(width: nat, height: nat): (h: seq<byte>)
    ensures |h| == 14
  {
    [0x42, 0x4d] + LE32(HEADERS + width * height * 4) + Zeros(4) + LE32(HEADERS)
  }

  function InfoHeader(width: nat, height: nat): (h: seq<byte>)
    ensures |h| == 40
  {
    LE32(40) + LE32(width) + LE32(height) + LE16(1) + LE16(32) + Zeros(4) + LE32(4 * width * height) + Zeros(16)
  }

  const SCREEN := Target(4, true, false, 0xFF)

  /** False where the C++ code throws. The headers are written before the image asks for the buffer again. */
  method ScreenshotToBitmap(width: nat, height: nat, screenshot: Data, bitmap: Data) returns (ok: bool)
    requires width < MAX16 && height < MAX16 && width * height < 0x2000_0000
    requires screenshot.Valid() && bitmap.Valid() && screenshot != bitmap && screenshot.memBlock != bitmap.memBlock
    requires width * height > 0 || screenshot.Content() == []
    modifies bitmap, bitmap.memBlock
    ensures bitmap.Valid() && (bitmap.memBlock == old(bitmap.memBlock) || fresh(bitmap.memBlock))
    ensures ok <==> FitsPixels(|screenshot.Content()|, width * height)
    ensures ok ==>
              var c := screenshot.Content(); var s := Shot(width, height, UnitOf(|c|, width * height), c);
              s.Valid() && bitmap.Content() == FileHeader(width, height) + InfoHeader(width, height) + Image(s, SCREEN)
  {
    hide BufferModel.GetBuffer, BufferModel.MakeSpace, BufferModel.Poke, Image, FileHeader, InfoHeader, Region,
         Rendered, Buf.Content, CanRelease;
    var data := screenshot.GetData();
    if |data| < width * height * 2 {
      return false;
    }
    var total := HEADERS + width * height * 4;
    MulOrder(0, width, height);
    assert total >= HEADERS;
    var headers := FileHeader(width, height) + InfoHeader(width, height);
    HeadersStay(bitmap.state, headers, total);
    bitmap.GetBuffer(total);
    bitmap.Poke(0, headers);
    ghost var written := bitmap.state;
    ok := ScreenshotToRGB(width, height, screenshot, bitmap, HEADERS, 32, true);
    if ok {
      ghost var s := Shot(width, height, UnitOf(|data|, width * height), data);
      HeadersThenImage(written, bitmap.state, headers, s);
      var released := bitmap.ReleaseBuffer(total);
    }
  }

  lemma HeadersThenImage(written: Buf, now: Buf, headers: seq<byte>, s: Shot)
    requires s.Valid() && written.Valid() && |headers| == HEADERS <= written.BufSize() && !written.external
    requires Region(written, 0, HEADERS) == headers
    requires GetBuffer(written, HEADERS + s.width * s.height * 4) == written
    requires Rendered(written, now, HEADERS, Image(s, SCREEN))
    ensures now.Content() == headers + Image(s, SCREEN) && CanRelease(now, HEADERS + s.width * s.height * 4)
    ensures now.size == HEADERS + s.width * s.height * 4
  {
    hide GetBuffer, Rows, Region;
    RowsSize(s, SCREEN, s.height);
    assert s.height * s.width == s.width * s.height;
    assert now.Content() == now.Content()[..HEADERS] + now.Content()[HEADERS..];
  }

  /** What is written behind the data size is still there when room for as much is asked for again. */
  lemma HeadersStay(s: Buf, headers: seq<byte>, total: nat)
    requires s.Valid() && |headers| <= total && total > 0
    ensures GetBuffer(s, total).Valid() && !GetBuffer(s, total).external && total <= GetBuffer(s, total).BufSize()
    ensures var w := Poke(GetBuffer(s, total), 0, headers);
            && w.Valid() && GetBuffer(w, total) == w && |headers| <= |w.block| - w.start
            && Region(w, 0, |headers|) == headers
  {
    hide MakeSpace, Splice;
    GetBufferFits(s, total);
    var m := GetBuffer(s, total);
    RequestSettles(s, total, total);
    SettledExactly(m, total);
    PokeWrites(m, 0, headers);
    var w := Poke(m, 0, headers);
    assert Settled(w, total);
    SettledExactly(w, total);
    PokeGrows(m, 0, 0, headers);
    assert Region(m, 0, 0) + headers == headers;
  }

  // ------------------------------------------------------------ an image viewer

  /** Whether these are the headers of an uncompressed 32 bit image: the mark, the size of the file, the place of
   * the image, the size of the second header, the image's own sizes, one plane, 32 bits, no compression, the size
   * of the image, and nothing else. */
  predicate Viewable(bmp: seq<byte>) {
    |bmp| >= 54 &&
    var width, height := FromLE32(bmp[18..22]), FromLE32(bmp[22..26]);
    && bmp[..2] == [0x42, 0x4d] && FromLE32(bmp[2..6]) == |bmp| && bmp[6..10] == [0, 0, 0, 0]
    && FromLE32(bmp[10..14]) == 54 && FromLE32(bmp[14..18]) == 40
    && FromLE16(bmp[26..28]) == 1 && FromLE16(bmp[28..30]) == 32 && bmp[30..34] == [0, 0, 0, 0]
    && FromLE32(bmp[34..38]) == |bmp| - 54 == 4 * width * height
    && forall k :: 38 <= k < 54 ==> bmp[k] == 0
  }

  /** The pixel a viewer shows in column x of the y-th line from the top: the lines of a .bmp file are
   * stored from bottom to top. */
  function Shown(bmp: seq<byte>, x: nat, y: nat): seq<byte> {
    if !Viewable(bmp) then [] else
    var width, height := FromLE32(bmp[18..22]), FromLE32(bmp[22..26]);
    if x >= width || y >= height then [] else Four(bmp, 54 + 4 * Place(height - 1 - y, width, x))
  }

  function Place(row: nat, width: nat, i: nat): nat {
    row * width + i
  }

  function Four(bmp: seq<byte>, at: nat): seq<byte> {
    if at + 4 > |bmp| then [] else bmp[at..at + 4]
  }

  lemma FileHeaderFields(width: nat, height: nat)
    requires 54 + width * height * 4 < MAX32
    ensures var h := FileHeader(width, height);
            && h[..2] == [0x42, 0x4d] && FromLE32(h[2..6]) == 54 + width * height * 4 && h[6..10] == [0, 0, 0, 0]
            && FromLE32(h[10..14]) == 54
  {
    hide LE32, FromLE32;
    var h, size: nat := FileHeader(width, height), 54 + width * height * 4;
    assert h[2..6] == LE32(size) && h[10..14] == LE32(54);
    RoundTrip32(size);
    RoundTrip32(54);
  }

  lemma InfoHeaderFields(width: nat, height: nat)
    requires width < MAX32 && height < MAX32 && 4 * width * height < MAX32
    ensures var h := InfoHeader(width, height);
            && FromLE32(h[..4]) == 40 && FromLE32(h[4..8]) == width && FromLE32(h[8..12]) == height
            && FromLE16(h[12..14]) == 1 && FromLE16(h[14..16]) == 32 && h[16..20] == [0, 0, 0, 0]
            && FromLE32(h[20..24]) == 4 * width * height && forall k :: 24 <= k < 40 ==> h[k] == 0
  {
    hide LE32, FromLE32, LE16, FromLE16;
    var h, size: nat := InfoHeader(width, height), 4 * width * height;
    assert h[..4] == LE32(40) && h[4..8] == LE32(width) && h[8..12] == LE32(height);
    assert h[12..14] == LE16(1) && h[14..16] == LE16(32) && h[20..24] == LE32(size);
    RoundTrip32(40);
    RoundTrip32(width);
    RoundTrip32(height);
    RoundTrip16(1);
    RoundTrip16(32);
    RoundTrip32(size);
  }

  lemma SavedIsViewable(width: nat, height: nat, image: seq<byte>)
    requires width < MAX16 && height < MAX16 && width * height < 0x2000_0000 && |image| == width * height * 4
    ensures var bmp := FileHeader(width, height) + InfoHeader(width, height) + image;
            Viewable(bmp) && FromLE32(bmp[18..22]) == width && FromLE32(bmp[22..26]) == height
  {
    hide FileHeader, InfoHeader, FromLE32, FromLE16;
    assert 4 * width * height == width * height * 4;
    FileHeaderFields(width, height);
    InfoHeaderFields(width, height);
    HeaderPlaces(FileHeader(width, height), InfoHeader(width, height), image);
  }

  lemma HeaderPlaces(f: seq<byte>, h: seq<byte>, image: seq<byte>)
    requires |f| == 14 && |h| == 40
    ensures var bmp := f + h + image;
            && bmp[..2] == f[..2] && bmp[2..6] == f[2..6] && bmp[6..10] == f[6..10] && bmp[10..14] == f[10..14]
            && bmp[14..18] == h[..4] && bmp[18..22] == h[4..8] && bmp[22..26] == h[8..12] && bmp[26..28] == h[12..14]
            && bmp[28..30] == h[14..16] && bmp[30..34] == h[16..20] && bmp[34..38] == h[20..24]
            && forall k :: 38 <= k < 54 ==> bmp[k] == h[k - 14]
  {
  }

  /** The colours of a pixel of the screen: blue, green, red and alpha. */
  function OnScreen(d: seq<byte>): seq<byte>
    requires |d| == 2 || |d| == 4
  {
    if |d| == 4 then d else
    var v := d[0] as int + 0x100 * d[1] as int;
    [v % 32 * 255 / 31, v / 32 % 64 * 255 / 63, v / 2048 * 255 / 31, 0xFF]
  }

  /** The line of the image that is shown at y has the pixels of that line of the screen. */
  lemma ScreenImageAt(s: Shot, x: nat, y: nat)
    requires s.Valid() && x < s.width && y < s.height
    ensures var at := 4 * Place(s.height - 1 - y, s.width, x);
            at + 4 <= |Image(s, SCREEN)| && Image(s, SCREEN)[at..at + 4] == OnScreen(Source(s, y, x))
  {
    hide Image, Convert, Source, OnScreen;
    ImageAt(s, SCREEN, s.height - 1 - y, x);
    ConvertedIsOnScreen(Source(s, y, x));
  }

  lemma FourBehind(headers: seq<byte>, image: seq<byte>, at: nat)
    requires |headers| == 54 && at + 4 <= |image|
    ensures Four(headers + image, 54 + at) == image[at..at + 4]
  {
    Back(headers, image, at, 4);
  }

  /** A viewer shows every pixel of the screenshot where it was on the screen, and in its colours. */
  lemma ShownUpright(s: Shot, x: nat, y: nat)
    requires s.Valid() && s.width < MAX16 && s.height < MAX16 && s.width * s.height < 0x2000_0000
    requires x < s.width && y < s.height
    ensures Shown(FileHeader(s.width, s.height) + InfoHeader(s.width, s.height) + Image(s, SCREEN), x, y)
         == OnScreen(Source(s, y, x))
  {
    hide FileHeader, InfoHeader, Image, Source, FromLE32, Viewable, OnScreen, Four, Place;
    var headers, image := FileHeader(s.width, s.height) + InfoHeader(s.width, s.height), Image(s, SCREEN);
    ImageSize(s);
    SavedIsViewable(s.width, s.height, image);
    ScreenImageAt(s, x, y);
    FourBehind(headers, image, 4 * Place(s.height - 1 - y, s.width, x));
  }

  lemma ImageSize(s: Shot)
    requires s.Valid()
    ensures |Image(s, SCREEN)| == s.width * s.height * 4
  {
    hide Rows;
    RowsSize(s, SCREEN, s.height);
    Commutes(s.height, s.width);
  }

  lemma Commutes(a: nat, b: nat)
    ensures a * b == b * a
  {
  }

  lemma PixelParts(d: seq<byte>) returns (red: nat, green: nat, blue: nat)
    requires |d| == 2
    ensures var v := d[0] as int + 0x100 * d[1] as int;
            red == v / 2048 < 32 && green == v / 32 % 64 && blue == v % 32
            && v == 2048 * red + 32 * green + blue && d == [v % 0x100, v / 0x100]
  {
    var v: nat := d[0] as int + 0x100 * d[1] as int;
    Bits(v);
    red, green, blue := v / 2048, v / 32 % 64, v % 32;
    assert [v % 0x100, v / 0x100] == d;
  }

  lemma ConvertedIsOnScreen(d: seq<byte>)
    requires |d| == 2 || |d| == 4
    ensures Convert(d, SCREEN) == OnScreen(d)
  {
    hide Convert;
    if |d| == 4 {
      LongPixel(d, SCREEN);
      assert d[..3] + [d[3]] == d;
    } else {
      var red, green, blue := PixelParts(d);
      ShortPixel(red, green, blue, SCREEN);
      assert |Convert(d, SCREEN)| == 4;
    }
  }
}
