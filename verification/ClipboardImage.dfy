// Windows bitmaps on the clipboard (dibToPNG and pngToDIB in
// clipboard_image.go). A PNG is the pixel grid it holds.
module ClipboardImage {
  import opened Wrappers
  import opened Bytes
  import opened ChannelMask

  const HEADER := 40
  const V4_HEADER := 108
  const V5_HEADER := 124
  const RGB := 0
  const BITFIELDS := 3
  const MAX_SIDE := 16384

  datatype Color = Color(r: byte, g: byte, b: byte, a: byte)

  /** A pixel grid: its rows from the top. */
  datatype Image = Image(width: nat, height: nat, rows: seq<seq<Color>>) {
    ghost predicate Valid() {
      |rows| == height && forall y :: 0 <= y < height ==> |rows[y]| == width
    }
  }

  // ---- Reading numbers -----------------------------------------------------------------

  function Uint32(s: seq<byte>, off: nat): (v: nat)
    requires off + 4 <= |s|
    ensures v < UINT32_LIMIT
  {
    LittleEndianBound(s[off..off + 4]);
    Capacities();
    FromLittleEndian(s[off..off + 4])
  }

  function Uint16(s: seq<byte>, off: nat): nat
    requires off + 2 <= |s|
  {
    FromLittleEndian(s[off..off + 2])
  }

  lemma {:induction false} LittleEndianBound(s: seq<byte>)
    ensures FromLittleEndian(s) < Capacity(|s|)
  {
    if s != [] {
      LittleEndianBound(s[1..]);
    }
  }

  /** A uint32 read as a signed number. */
  function Int32(v: int): int {
    var m := v % UINT32_LIMIT;
    if m >= 0x8000_0000 then m - UINT32_LIMIT else m
  }

  // ---- What a bitmap means -----------------------------------------------------------------

  datatype Layout = Layout(width: nat, height: nat, topDown: bool, bits: nat,
                           paletteAt: nat, paletteCount: nat, offset: nat,
                           rMask: nat, gMask: nat, bMask: nat, aMask: nat) {
    /** Bytes in a stored row, which is padded to a multiple of four. */
    function Stride(): nat {
      (width * bits + 31) / 32 * 4
    }

    /** Everything the pixels refer to lies in the bitmap. */
    ghost predicate Fits(dib: seq<byte>) {
      && 0 < width <= MAX_SIDE && 0 < height <= MAX_SIDE
      && (bits == 8 || bits == 24 || bits == 32)
      && (bits == 8 ==> 0 < paletteCount <= 256 && paletteAt + 4 * paletteCount <= |dib|)
      && rMask < UINT32_LIMIT && gMask < UINT32_LIMIT && bMask < UINT32_LIMIT && aMask < UINT32_LIMIT
      && offset + Stride() * height <= |dib|
    }

    /** Where a row begins; rows are stored from the bottom unless the height is negative. */
    function RowAt(y: nat): nat
      requires y < height
    {
      offset + (if topDown then y else height - 1 - y) * Stride()
    }

    lemma RowFits(y: nat)
      requires y < height
      ensures RowAt(y) + Stride() <= offset + Stride() * height
    {
      var row, stride := if topDown then y else height - 1 - y, Stride();
      Distribute(row + 1, row, stride);
      Distribute(height, row + 1, stride);
      NotNegative(height - row - 1, stride);
    }

    lemma PixelFits(x: nat)
      requires x < width
      ensures bits == 8 ==> x < Stride()
      ensures bits == 24 ==> x * 3 + 3 <= Stride()
      ensures bits == 32 ==> x * 4 + 4 <= Stride() == width * 4
    {
    }
  }

  /** The channel masks and where they end. */
  datatype Masks = Masks(r: nat, g: nat, b: nat, a: nat, end: nat)

  function ReadMasks(dib: seq<byte>, headerSize: nat, compression: nat, bits: nat): (m: Option<Masks>)
    requires HEADER <= headerSize <= |dib| && (headerSize != HEADER ==> headerSize >= V4_HEADER)
    ensures m.Some? ==> m.value.end <= |dib|
    ensures m.Some? ==> m.value.r < UINT32_LIMIT && m.value.g < UINT32_LIMIT && m.value.b < UINT32_LIMIT && m.value.a < UINT32_LIMIT
  {
    if compression == BITFIELDS then
      if headerSize == HEADER then
        if |dib| - HEADER < 12 then None
        else Some(Masks(Uint32(dib, 40), Uint32(dib, 44), Uint32(dib, 48), 0, HEADER + 12))
      else Some(Masks(Uint32(dib, 40), Uint32(dib, 44), Uint32(dib, 48), Uint32(dib, 52), headerSize))
    else
      Some(Masks(0xff_0000, 0xff00, 0xff,
                 if headerSize != HEADER && bits == 32 then Uint32(dib, 52) else 0, headerSize))
  }

  /** The header, for any bytes whatever: what it describes lies in the bitmap. */
  function ReadLayout(dib: seq<byte>): (r: Option<Layout>)
    ensures r.Some? ==> r.value.Fits(dib)
  {
    if |dib| < HEADER then None
    else
      var headerSize := Uint32(dib, 0);
      if (headerSize != HEADER && headerSize != V4_HEADER && headerSize != V5_HEADER) || headerSize > |dib| then None
      else
        var width, signedHeight := Int32(Uint32(dib, 4)), Int32(Uint32(dib, 8));
        var bits, compression, colorsUsed := Uint16(dib, 14), Uint32(dib, 16), Uint32(dib, 32);
        var topDown := signedHeight < 0;
        var height := if topDown then Int32(-signedHeight) else signedHeight;
        if width <= 0 || height <= 0 || width > MAX_SIDE || height > MAX_SIDE then None
        else if compression != RGB && compression != BITFIELDS then None
        else
          var masks := ReadMasks(dib, headerSize, compression, bits);
          if masks.None? then None else ReadRest(dib, width, height, topDown, bits, colorsUsed, masks.value)
  }

  function ReadRest(dib: seq<byte>, width: nat, height: nat, topDown: bool, bits: nat, colorsUsed: nat, m: Masks): (r: Option<Layout>)
    requires 0 < width <= MAX_SIDE && 0 < height <= MAX_SIDE && m.end <= |dib|
    requires m.r < UINT32_LIMIT && m.g < UINT32_LIMIT && m.b < UINT32_LIMIT && m.a < UINT32_LIMIT
    ensures r.Some? ==> r.value.Fits(dib)
  {
    var count := if bits != 8 then 0 else if colorsUsed == 0 || colorsUsed > 256 then 256 else colorsUsed;
    var offset := m.end + count * 4;
    if bits == 8 && |dib| < offset then None
    else if bits != 8 && bits != 24 && bits != 32 then None
    else
      var l := Layout(width, height, topDown, bits, m.end, count, offset, m.r, m.g, m.b, m.a);
      if |dib| < offset + l.Stride() * height then None else Some(l)
  }

  function PaletteColor(dib: seq<byte>, l: Layout, index: nat): Color
    requires l.Fits(dib) && l.bits == 8 && index < l.paletteCount
  {
    var p := l.paletteAt + index * 4;
    Color(dib[p + 2], dib[p + 1], dib[p], 255)
  }

  /** The bytes that hold a row. */
  function StoredBytes(dib: seq<byte>, l: Layout, y: nat): (row: seq<byte>)
    requires y < l.height && l.offset + l.Stride() * l.height <= |dib|
    ensures |row| == l.Stride()
  {
    l.RowFits(y);
    dib[l.RowAt(y)..l.RowAt(y) + l.Stride()]
  }

  /** A pixel of a stored row. */
  function PixelIn(dib: seq<byte>, l: Layout, row: seq<byte>, x: nat): Color
    requires l.Fits(dib) && x < l.width && |row| == l.Stride()
  {
    l.PixelFits(x);
    if l.bits == 8 then
      var index := row[x] as nat;
      PaletteColor(dib, l, if index >= l.paletteCount then 0 else index)
    else if l.bits == 24 then
      Color(row[x * 3 + 2], row[x * 3 + 1], row[x * 3], 255)
    else
      var v := Uint32(row, x * 4);
      Color(Channel(v, l.rMask), Channel(v, l.gMask), Channel(v, l.bMask), if l.aMask != 0 then Channel(v, l.aMask) else 255)
  }

  /** The pixel the bitmap stores for a place in the image. */
  function Pixel(dib: seq<byte>, l: Layout, x: nat, y: nat): Color
    requires l.Fits(dib) && x < l.width && y < l.height
  {
    PixelIn(dib, l, StoredBytes(dib, l, y), x)
  }

  function StoredRow(dib: seq<byte>, l: Layout, y: nat): (row: seq<Color>)
    requires l.Fits(dib) && y < l.height
    ensures |row| == l.width
  {
    seq(l.width, x requires 0 <= x < l.width => Pixel(dib, l, x, y))
  }

  function Stored(dib: seq<byte>, l: Layout): (rows: seq<seq<Color>>)
    requires l.Fits(dib)
    ensures |rows| == l.height && forall y :: 0 <= y < l.height ==> |rows[y]| == l.width
  {
    seq(l.height, y requires 0 <= y < l.height => StoredRow(dib, l, y))
  }

  ghost predicate TransparentRow(row: seq<Color>) {
    forall x :: 0 <= x < |row| ==> row[x].a == 0
  }

  ghost predicate Transparent(rows: seq<seq<Color>>) {
    forall y :: 0 <= y < |rows| ==> TransparentRow(rows[y])
  }

  function OpaqueRow(row: seq<Color>): (r: seq<Color>)
    ensures |r| == |row|
  {
    seq(|row|, x requires 0 <= x < |row| => row[x].(a := 255))
  }

  function Opaque(rows: seq<seq<Color>>): (r: seq<seq<Color>>)
    ensures |r| == |rows|
  {
    seq(|rows|, y requires 0 <= y < |rows| => OpaqueRow(rows[y]))
  }

  /** The image a bitmap shows. */
  ghost function Shown(dib: seq<byte>): Option<Image> {
    match ReadLayout(dib)
    case None => None
    case Some(l) =>
      var rows := Stored(dib, l);
      Some(Image(l.width, l.height,
                 if l.bits == 32 && l.aMask != 0 && Transparent(rows) then Opaque(rows) else rows))
  }

  /** No bitmap shows as nothing. */
  lemma NeverInvisible(dib: seq<byte>)
    requires Shown(dib).Some?
    ensures Shown(dib).value.Valid() && !Transparent(Shown(dib).value.rows)
  {
    var l := ReadLayout(dib).value;
    var rows, shown := Stored(dib, l), Shown(dib).value.rows;
    assert rows[0] == StoredRow(dib, l, 0) && rows[0][0] == Pixel(dib, l, 0, 0);
    if l.bits == 32 && l.aMask != 0 {
      assert Transparent(rows) ==> shown[0] == OpaqueRow(rows[0]) && shown[0][0].a == 255;
    } else {
      assert shown[0][0].a == 255;
    }
  }

  /** The header of a top-down bitmap with the same bytes otherwise: its height is negated. */
  ghost predicate NegatesHeight(dib: seq<byte>, mirrored: seq<byte>, l: Layout) {
    && HEADER <= l.offset <= |dib| == |mirrored|
    && mirrored[..8] == dib[..8] && mirrored[12..l.offset] == dib[12..l.offset]
    && Int32(Uint32(mirrored, 8)) == -(l.height as int)
  }

  /** A top-down bitmap with its rows stored from the other end shows the same image. */
  lemma MirroredShowsTheSame(dib: seq<byte>, mirrored: seq<byte>, l: Layout)
    requires ReadLayout(dib) == Some(l) && !l.topDown && NegatesHeight(dib, mirrored, l)
    requires forall y: nat :: y < l.height ==> StoredBytes(mirrored, l.(topDown := true), y) == StoredBytes(dib, l, y)
    ensures Shown(mirrored) == Shown(dib)
  {
    hide Int32, ReadLayout;
    var m := l.(topDown := true);
    LayoutStart(dib);
    MirroredLayout(dib, mirrored, l);
    assert m.Stride() == l.Stride();
    forall y: nat | y < l.height ensures StoredRow(mirrored, m, y) == StoredRow(dib, l, y) {
      MirroredRow(dib, mirrored, l, y);
    }
    assert Stored(mirrored, m) == Stored(dib, l);
  }

  /** The pixels come after the header, the masks and the palette. */
  lemma LayoutStart(dib: seq<byte>)
    requires ReadLayout(dib).Some?
    ensures var l := ReadLayout(dib).value;
      HEADER <= l.paletteAt && l.offset == l.paletteAt + 4 * l.paletteCount && (l.bits != 8 ==> l.paletteCount == 0)
  {
    hide Uint32, Int32;
  }

  lemma MirroredLayout(dib: seq<byte>, mirrored: seq<byte>, l: Layout)
    requires ReadLayout(dib) == Some(l) && !l.topDown && NegatesHeight(dib, mirrored, l)
    ensures ReadLayout(mirrored) == Some(l.(topDown := true))
  {
    hide Uint32, Uint16, Int32, Layout.Fits;
    LayoutStart(dib);
    SameWord(dib, mirrored, l, 0);
    SameWord(dib, mirrored, l, 4);
    SameWord(dib, mirrored, l, 16);
    SameWord(dib, mirrored, l, 32);
    SameHalf(dib, mirrored, l);
    SmallInt32(l.height);
    var size, bits, compression := Uint32(dib, 0), Uint16(dib, 14), Uint32(dib, 16);
    SameMasks(dib, mirrored, l, size, compression, bits);
  }

  lemma SameMasks(dib: seq<byte>, mirrored: seq<byte>, l: Layout, size: nat, compression: nat, bits: nat)
    requires NegatesHeight(dib, mirrored, l)
    requires HEADER <= size <= |dib| && (size != HEADER ==> size >= V4_HEADER)
    requires var m := ReadMasks(dib, size, compression, bits); m.Some? && m.value.end <= l.offset
    ensures ReadMasks(mirrored, size, compression, bits) == ReadMasks(dib, size, compression, bits)
  {
    hide Uint32, Int32;
    if compression == BITFIELDS {
      SameWord(dib, mirrored, l, 40);
      SameWord(dib, mirrored, l, 44);
      SameWord(dib, mirrored, l, 48);
    }
    if size != HEADER {
      SameWord(dib, mirrored, l, 52);
    }
  }

  lemma SameWord(dib: seq<byte>, mirrored: seq<byte>, l: Layout, k: nat)
    requires NegatesHeight(dib, mirrored, l) && (k + 4 <= 8 || 12 <= k <= k + 4 <= l.offset)
    ensures Uint32(mirrored, k) == Uint32(dib, k)
  {
    hide Int32, FromLittleEndian;
    if k + 4 <= 8 {
      SliceOfSlice(mirrored, 0, 8, k, k + 4);
      SliceOfSlice(dib, 0, 8, k, k + 4);
    } else {
      SliceOfSlice(mirrored, 12, l.offset, k, k + 4);
      SliceOfSlice(dib, 12, l.offset, k, k + 4);
    }
  }

  lemma SameHalf(dib: seq<byte>, mirrored: seq<byte>, l: Layout)
    requires NegatesHeight(dib, mirrored, l)
    ensures Uint16(mirrored, 14) == Uint16(dib, 14)
  {
    hide Int32, FromLittleEndian, Uint32;
    SliceOfSlice(mirrored, 12, l.offset, 14, 16);
    SliceOfSlice(dib, 12, l.offset, 14, 16);
  }

  lemma MirroredRow(dib: seq<byte>, mirrored: seq<byte>, l: Layout, y: nat)
    requires l.Fits(dib) && l.(topDown := true).Fits(mirrored) && y < l.height && SamePaletteBytes(dib, mirrored, l)
    requires StoredBytes(mirrored, l.(topDown := true), y) == StoredBytes(dib, l, y)
    ensures StoredRow(mirrored, l.(topDown := true), y) == StoredRow(dib, l, y)
  {
    hide Channel, FromLittleEndian;
    var m, row := l.(topDown := true), StoredBytes(dib, l, y);
    assert m.Stride() == l.Stride();
    forall x: nat | x < l.width ensures PixelIn(mirrored, m, row, x) == PixelIn(dib, l, row, x) {
      if l.bits == 8 {
        SamePalette(dib, mirrored, l);
      }
    }
  }

  lemma SamePalette(dib: seq<byte>, mirrored: seq<byte>, l: Layout)
    requires l.Fits(dib) && l.(topDown := true).Fits(mirrored) && l.bits == 8 && SamePaletteBytes(dib, mirrored, l)
    ensures forall i: nat :: i < l.paletteCount ==> PaletteColor(mirrored, l.(topDown := true), i) == PaletteColor(dib, l, i)
  {
    forall i: nat | 12 <= i < l.offset ensures dib[i] == mirrored[i] {
      assert dib[12..l.offset][i - 12] == mirrored[12..l.offset][i - 12];
    }
  }

  ghost predicate SamePaletteBytes(dib: seq<byte>, mirrored: seq<byte>, l: Layout) {
    && HEADER <= l.paletteAt && l.paletteAt + 4 * l.paletteCount <= l.offset <= |dib| == |mirrored|
    && mirrored[12..l.offset] == dib[12..l.offset]
  }

  // ---- The bitmap made for an image --------------------------------------------------------

  function Encoded(img: Image): seq<byte> {
    Header(img.width, img.height) + Body(img.rows)
  }

  function Header(width: nat, height: nat): (s: seq<byte>)
    ensures |s| == HEADER
  {
    LittleEndian(HEADER, 4) + LittleEndian(width, 4) + LittleEndian(height, 4) + LittleEndian(1, 2) + LittleEndian(32, 2)
    + LittleEndian(RGB, 4) + LittleEndian(width * 4 * height, 4) + LittleEndian(2835, 4) + LittleEndian(2835, 4)
    + Zeros(8)
  }

  function PixelBytes(c: Color): (s: seq<byte>) {
    [c.b, c.g, c.r, c.a]
  }

  function RowBytes(row: seq<Color>): (s: seq<byte>)
    ensures |s| == 4 * |row|
  {
    if row == [] then [] else RowBytes(row[..|row| - 1]) + PixelBytes(row[|row| - 1])
  }

  /** Stored rows, the last one first. */
  function Stacked(rows: seq<seq<byte>>): seq<byte> {
    if rows == [] then [] else rows[|rows| - 1] + Stacked(rows[..|rows| - 1])
  }

  function RowsBytes(rows: seq<seq<Color>>): (r: seq<seq<byte>>)
    ensures |r| == |rows|
  {
    seq(|rows|, y requires 0 <= y < |rows| => RowBytes(rows[y]))
  }

  function Body(rows: seq<seq<Color>>): seq<byte> {
    Stacked(RowsBytes(rows))
  }

  lemma {:induction false} RowBytesAt(row: seq<Color>, x: nat)
    requires x < |row|
    ensures RowBytes(row)[4 * x..4 * x + 4] == PixelBytes(row[x])
  {
    var n := |row| - 1;
    if x < n {
      RowBytesAt(row[..n], x);
      assert RowBytes(row)[4 * x..4 * x + 4] == RowBytes(row[..n])[4 * x..4 * x + 4];
    }
  }

  lemma Distribute(a: nat, b: nat, c: nat)
    requires b <= a
    ensures a * c - b * c == (a - b) * c
  {
  }

  lemma {:induction false} StackedLength(rows: seq<seq<byte>>, stride: nat)
    requires forall y :: 0 <= y < |rows| ==> |rows[y]| == stride
    ensures |Stacked(rows)| == |rows| * stride
  {
    if rows != [] {
      StackedLength(rows[..|rows| - 1], stride);
      Distribute(|rows|, |rows| - 1, stride);
    }
  }

  /** The rows down to one of them end the whole. */
  lemma {:induction false} StackedEnds(rows: seq<seq<byte>>, n: nat)
    requires n <= |rows|
    ensures |Stacked(rows[..n])| <= |Stacked(rows)|
    ensures Stacked(rows)[|Stacked(rows)| - |Stacked(rows[..n])|..] == Stacked(rows[..n])
  {
    if n == |rows| {
      assert rows[..n] == rows;
    } else {
      var shorter := rows[..|rows| - 1];
      StackedEnds(shorter, n);
      assert shorter[..n] == rows[..n];
    }
  }

  lemma BodyLength(rows: seq<seq<Color>>, width: nat)
    requires forall y :: 0 <= y < |rows| ==> |rows[y]| == width
    ensures |Body(rows)| == |rows| * (4 * width)
  {
    hide RowBytes, Stacked;
    StackedLength(RowsBytes(rows), 4 * width);
  }

  /** One row more comes before the others. */
  lemma BodyGrows(rows: seq<seq<Color>>, y: nat)
    requires y < |rows|
    ensures Body(rows[..y + 1]) == RowBytes(rows[y]) + Body(rows[..y])
  {
    hide RowBytes;
    var more := RowsBytes(rows[..y + 1]);
    assert more[..y] == RowsBytes(rows[..y]) && more[y] == RowBytes(rows[y]);
  }

  function RowStart(height: nat, y: nat, stride: nat): nat
    requires y < height
  {
    HEADER + (height - 1 - y) * stride
  }

  lemma RowStartIs(height: nat, y: nat, stride: nat)
    requires y < height
    ensures RowStart(height, y, stride) == HEADER + height * stride - (y + 1) * stride
  {
    assert height * stride - (y + 1) * stride == (height - 1 - y) * stride;
  }

  /** Where a row is after a header. */
  lemma StackedAt(header: seq<byte>, rows: seq<seq<byte>>, y: nat, stride: nat)
    requires |header| >= HEADER && y < |rows| && forall i :: 0 <= i < |rows| ==> |rows[i]| == stride
    ensures var at := |header| - HEADER + RowStart(|rows|, y, stride);
      && at + stride <= |header + Stacked(rows)|
      && (header + Stacked(rows))[at..at + stride] == rows[y]
  {
    hide RowStart;
    var all, upTo := Stacked(rows), Stacked(rows[..y + 1]);
    StackedEnds(rows, y + 1);
    StackedLength(rows, stride);
    StackedLength(rows[..y + 1], stride);
    RowStartIs(|rows|, y, stride);
    assert rows[..y + 1][..y] == rows[..y];
    EndBegins(header, all, rows[y], Stacked(rows[..y]));
  }

  lemma RowIsStored(img: Image, y: nat)
    requires img.Valid() && y < img.height
    ensures var at := RowStart(img.height, y, img.width * 4);
      && at + img.width * 4 <= |Encoded(img)|
      && Encoded(img)[at..at + img.width * 4] == RowBytes(img.rows[y])
  {
    hide RowStart, Header, RowBytes, Stacked;
    StackedAt(Header(img.width, img.height), RowsBytes(img.rows), y, img.width * 4);
  }

  lemma EndBegins(header: seq<byte>, all: seq<byte>, row: seq<byte>, rest: seq<byte>)
    requires |row + rest| <= |all| && all[|all| - |row + rest|..] == row + rest
    ensures var at := |header| + |all| - |row + rest|; (header + all)[at..at + |row|] == row
  {
    var at := |all| - |row + rest|;
    assert (header + all)[|header| + at..|header| + at + |row|] == all[at..][..|row|];
  }

  // ---- There and back -------------------------------------------------------------------

  lemma HeaderReads(dib: seq<byte>, width: nat, height: nat)
    requires |dib| >= HEADER && dib[..HEADER] == Header(width, height) && width <= MAX_SIDE && height <= MAX_SIDE
    ensures Uint32(dib, 0) == HEADER && Uint32(dib, 4) == width && Uint32(dib, 8) == height
    ensures Uint16(dib, 14) == 32 && Uint32(dib, 16) == RGB
  {
    hide LittleEndian, FromLittleEndian, Capacity, Zeros;
    Capacities();
    var h := Header(width, height);
    assert dib[0..4] == h[0..4] == LittleEndian(HEADER, 4);
    LittleEndianRoundTrip(HEADER, 4);
    assert dib[4..8] == h[4..8] == LittleEndian(width, 4);
    LittleEndianRoundTrip(width, 4);
    assert dib[8..12] == h[8..12] == LittleEndian(height, 4);
    LittleEndianRoundTrip(height, 4);
    assert dib[14..16] == h[14..16] == LittleEndian(32, 2);
    LittleEndianRoundTrip(32, 2);
    assert dib[16..20] == h[16..20] == LittleEndian(RGB, 4);
    LittleEndianRoundTrip(RGB, 4);
  }

  lemma LayoutOfEncoded(img: Image)
    requires img.Valid() && 0 < img.width <= MAX_SIDE && 0 < img.height <= MAX_SIDE
    ensures ReadLayout(Encoded(img)) ==
            Some(Layout(img.width, img.height, false, 32, HEADER, 0, HEADER, 0xff_0000, 0xff00, 0xff, 0))
  {
    hide Header, Uint32, Uint16, ReadRest, Int32, Body;
    SmallInt32(img.width);
    SmallInt32(img.height);
    var dib := Encoded(img);
    HeaderReads(dib, img.width, img.height);
    BodyLength(img.rows, img.width);
    RestOfEncoded(dib, img.width, img.height, Uint32(dib, 32));
  }

  lemma SmallInt32(v: nat)
    requires v <= MAX_SIDE
    ensures Int32(v) == v
  {
  }

  lemma RestOfEncoded(dib: seq<byte>, width: nat, height: nat, colorsUsed: nat)
    requires |dib| == HEADER + height * (4 * width) && 0 < width <= MAX_SIDE && 0 < height <= MAX_SIDE
    ensures ReadRest(dib, width, height, false, 32, colorsUsed, Masks(0xff_0000, 0xff00, 0xff, 0, HEADER)) ==
            Some(Layout(width, height, false, 32, HEADER, 0, HEADER, 0xff_0000, 0xff00, 0xff, 0))
  {
    var l := Layout(width, height, false, 32, HEADER, 0, HEADER, 0xff_0000, 0xff00, 0xff, 0);
    l.PixelFits(0);
    var stride := l.Stride();
    assert stride == 4 * width;
    assert stride * height == height * (4 * width);
  }

  /** The default masks pick out the bytes of a pixel. */
  lemma DefaultMasks(c: Color)
    ensures var v := FromLittleEndian(PixelBytes(c));
      Channel(v, 0xff_0000) == c.r && Channel(v, 0xff00) == c.g && Channel(v, 0xff) == c.b
  {
    hide Channel, FromLittleEndian, ShiftRight, Contiguous;
    var v := FromLittleEndian(PixelBytes(c));
    PixelNumber(c);
    ByteMasks();
    ByteChannel(v, 0);
    ByteChannel(v, 8);
    ByteChannel(v, 16);
    ShiftedByBytes(v);
    BytesOfNumber(v, c.b, c.g, c.r, c.a);
  }

  lemma BytesOfNumber(v: nat, b: byte, g: byte, r: byte, a: byte)
    requires v == b as nat + 0x100 * (g as nat) + 0x1_0000 * (r as nat) + 0x100_0000 * (a as nat)
    ensures v % 0x100 == b as nat && v / 0x100 % 0x100 == g as nat && v / 0x1_0000 % 0x100 == r as nat
  {
    var upper: nat := r as nat + 0x100 * (a as nat);
    var middle: nat := g as nat + 0x100 * upper;
    LastByte(v, middle, b);
    LastByte(middle, upper, g);
    LastByte(upper, a as nat, r);
    LastTwoBytes(v, upper, 0x100 * (g as nat) + b as nat);
  }

  lemma LastByte(v: nat, q: nat, b: byte)
    requires v == 0x100 * q + b as nat
    ensures v / 0x100 == q && v % 0x100 == b as nat
  {
  }

  lemma LastTwoBytes(v: nat, q: nat, r: nat)
    requires v == 0x1_0000 * q + r && r < 0x1_0000
    ensures v / 0x1_0000 == q
  {
  }

  lemma ByteMasks()
    ensures Contiguous(0, 8) == 0xff && Contiguous(8, 8) == 0xff00 && Contiguous(16, 8) == 0xff_0000
  {
    NarrowOnes();
    assert ShiftLeft(255, 4) == 0xff0;
    assert ShiftLeft(255, 8) == 0xff00;
    assert ShiftLeft(255, 12) == 0xf_f000;
  }

  lemma ByteChannel(v: nat, shift: nat)
    ensures Channel(v, Contiguous(shift, 8)) as nat == ShiftRight(v, shift) % 256
  {
    ContiguousChannel(v, shift, 8);
    LowByte(ShiftRight(v, shift));
  }

  lemma PixelNumber(c: Color)
    ensures FromLittleEndian(PixelBytes(c)) == c.b as nat + 0x100 * (c.g as nat) + 0x1_0000 * (c.r as nat) + 0x100_0000 * (c.a as nat)
  {
    assert [c.a][1..] == [];
    assert FromLittleEndian([c.a]) == c.a as nat;
    assert [c.r, c.a][1..] == [c.a];
    assert FromLittleEndian([c.r, c.a]) == c.r as nat + 0x100 * (c.a as nat);
    assert [c.g, c.r, c.a][1..] == [c.r, c.a];
    assert PixelBytes(c)[1..] == [c.g, c.r, c.a];
  }

  lemma PixelOfEncoded(img: Image, l: Layout, x: nat, y: nat)
    requires img.Valid() && l == Layout(img.width, img.height, false, 32, HEADER, 0, HEADER, 0xff_0000, 0xff00, 0xff, 0)
    requires l.Fits(Encoded(img)) && x < img.width && y < img.height
    ensures Pixel(Encoded(img), l, x, y) == img.rows[y][x].(a := 255)
  {
    hide Channel, Encoded, RowBytes, FromLittleEndian;
    var dib := Encoded(img);
    l.PixelFits(x);
    RowIsStored(img, y);
    assert StoredBytes(dib, l, y) == RowBytes(img.rows[y]);
    RowBytesAt(img.rows[y], x);
    DefaultMasks(img.rows[y][x]);
  }

  /** A bitmap made for an image shows its colours, without its transparency. */
  lemma RoundTrip(img: Image)
    requires img.Valid() && 0 < img.width <= MAX_SIDE && 0 < img.height <= MAX_SIDE
    ensures Shown(Encoded(img)) == Some(Image(img.width, img.height, Opaque(img.rows)))
  {
    hide Pixel, Encoded, ReadLayout;
    LayoutOfEncoded(img);
    var dib := Encoded(img);
    var l := ReadLayout(dib).value;
    forall y, x | 0 <= y < img.height && 0 <= x < img.width ensures Pixel(dib, l, x, y) == img.rows[y][x].(a := 255) {
      PixelOfEncoded(img, l, x, y);
    }
    forall y | 0 <= y < img.height ensures StoredRow(dib, l, y) == OpaqueRow(img.rows[y]) {
    }
    assert Stored(dib, l) == Opaque(img.rows);
  }

  // ---- The same image from the top down --------------------------------------------------------

  function Reversed(rows: seq<seq<Color>>): (r: seq<seq<Color>>)
    ensures |r| == |rows|
  {
    seq(|rows|, y requires 0 <= y < |rows| => rows[|rows| - 1 - y])
  }

  /** The bitmap with a negated height and its rows from the top. */
  function TopDownOf(img: Image): seq<byte>
    requires img.height <= MAX_SIDE
  {
    var h := Header(img.width, img.height);
    h[..8] + LittleEndian(UINT32_LIMIT - img.height, 4) + h[12..] + Body(Reversed(img.rows))
  }

  lemma TopDownNegates(img: Image, l: Layout)
    requires img.Valid() && 0 < img.height <= MAX_SIDE && l.height == img.height && l.offset == HEADER
    ensures NegatesHeight(Encoded(img), TopDownOf(img), l)
  {
    hide LittleEndian, FromLittleEndian, Header, Body;
    var h, height := Header(img.width, img.height), LittleEndian(UINT32_LIMIT - img.height, 4);
    assert |Encoded(img)| == |TopDownOf(img)| by {
      BodyLength(img.rows, img.width);
      BodyLength(Reversed(img.rows), img.width);
    }
    HeightReplaced(h, height, Body(img.rows), Body(Reversed(img.rows)));
    Capacities();
    LittleEndianRoundTrip(UINT32_LIMIT - img.height, 4);
  }

  lemma HeightReplaced(h: seq<byte>, height: seq<byte>, body: seq<byte>, other: seq<byte>)
    requires |h| == HEADER && |height| == 4
    ensures var dib, mirrored := h + body, h[..8] + height + h[12..] + other;
      mirrored[..8] == dib[..8] && mirrored[8..12] == height && mirrored[12..HEADER] == dib[12..HEADER]
  {
  }

  lemma TopDownLength(img: Image, l: Layout)
    requires img.Valid() && img.height <= MAX_SIDE && l.Stride() == img.width * 4 && l.height == img.height
    ensures |TopDownOf(img)| == |Encoded(img)| == HEADER + l.Stride() * l.height
  {
    hide RowBytes, Header, Body, Layout.Stride;
    BodyLength(img.rows, img.width);
    BodyLength(Reversed(img.rows), img.width);
    assert |Header(img.width, img.height)| == HEADER;
    assert l.Stride() * l.height == img.height * (4 * img.width);
  }

  lemma EncodedRow(img: Image, l: Layout, y: nat)
    requires img.Valid() && y < img.height && l.Stride() == img.width * 4 && l.height == img.height && l.offset == HEADER && !l.topDown
    requires |Encoded(img)| == HEADER + l.Stride() * l.height
    ensures StoredBytes(Encoded(img), l, y) == RowBytes(img.rows[y])
  {
    hide RowBytes, Encoded, Layout.Stride;
    RowIsStored(img, y);
    assert RowStart(img.height, y, img.width * 4) == l.RowAt(y);
  }

  lemma TopDownRow(img: Image, l: Layout, y: nat)
    requires img.Valid() && img.height <= MAX_SIDE && y < img.height
    requires l.Stride() == img.width * 4 && l.height == img.height && l.offset == HEADER && l.topDown
    requires |TopDownOf(img)| == |Encoded(img.(rows := Reversed(img.rows)))| == HEADER + l.Stride() * l.height
    ensures StoredBytes(TopDownOf(img), l, y) == RowBytes(img.rows[y])
  {
    hide RowBytes, Encoded, TopDownOf, Layout.Stride, Layout.RowAt, HEADER, MAX_SIDE, Uint32, LittleEndian;
    var turned, b := img.(rows := Reversed(img.rows)), l.(topDown := false);
    SameStride(l);
    EncodedRow(turned, b, img.height - 1 - y);
    TopDownTail(img);
    var at := l.RowAt(y);
    SamePlace(l, y);
    l.RowFits(y);
    SameTail(TopDownOf(img), Encoded(turned), at, at + l.Stride());
  }

  /** A row from the top is where the row as far from the bottom would be. */
  lemma SamePlace(l: Layout, y: nat)
    requires l.topDown && y < l.height
    ensures l.offset <= l.RowAt(y) == l.(topDown := false).RowAt(l.height - 1 - y)
  {
    SameStride(l);
    hide Layout.Stride;
    NotNegative(y, l.Stride());
  }

  lemma SameStride(l: Layout)
    ensures l.(topDown := false).Stride() == l.Stride() && l.(topDown := true).Stride() == l.Stride()
  {
  }

  lemma TopDownTail(img: Image)
    requires img.height <= MAX_SIDE
    ensures TopDownOf(img)[HEADER..] == Encoded(img.(rows := Reversed(img.rows)))[HEADER..]
  {
    hide Header, Body, LittleEndian;
    var h, body := Header(img.width, img.height), Body(Reversed(img.rows));
    TailOf(h, body);
    TailOf(h[..8] + LittleEndian(UINT32_LIMIT - img.height, 4) + h[12..], body);
  }

  lemma TailOf(h: seq<byte>, body: seq<byte>)
    requires |h| == HEADER
    ensures (h + body)[HEADER..] == body
  {
  }

  lemma SameTail(a: seq<byte>, b: seq<byte>, from: nat, to: nat)
    requires HEADER <= from <= to <= |a| == |b| && a[HEADER..] == b[HEADER..]
    ensures a[from..to] == b[from..to]
  {
    SliceOfSlice(a, HEADER, |a|, from, to);
    SliceOfSlice(b, HEADER, |b|, from, to);
    assert a[HEADER..|a|] == a[HEADER..] && b[HEADER..|b|] == b[HEADER..];
  }

  lemma TopDownShowsTheSame(img: Image)
    requires img.Valid() && 0 < img.width <= MAX_SIDE && 0 < img.height <= MAX_SIDE
    ensures Shown(TopDownOf(img)) == Shown(Encoded(img)) == Some(Image(img.width, img.height, Opaque(img.rows)))
  {
    hide Shown, ReadLayout, TopDownOf, Encoded, RowBytes;
    LayoutOfEncoded(img);
    var l := ReadLayout(Encoded(img)).value;
    var m, turned := l.(topDown := true), img.(rows := Reversed(img.rows));
    l.PixelFits(0);
    m.PixelFits(0);
    TopDownNegates(img, l);
    TopDownLength(img, l);
    TopDownLength(turned, l);
    hide Layout.Stride;
    forall y: nat | y < l.height ensures StoredBytes(TopDownOf(img), m, y) == StoredBytes(Encoded(img), l, y) {
      EncodedRow(img, l, y);
      TopDownRow(img, m, y);
    }
    MirroredShowsTheSame(Encoded(img), TopDownOf(img), l);
    RoundTrip(img);
  }

  // ---- dibToPNG ----------------------------------------------------------------------------

  ghost function Grid(pix: array2<Color>): seq<seq<Color>>
    reads pix
  {
    seq(pix.Length0, y requires 0 <= y < pix.Length0 reads pix => GridRow(pix, y))
  }

  ghost function GridRow(pix: array2<Color>, y: nat): seq<Color>
    requires y < pix.Length0
    reads pix
  {
    seq(pix.Length1, x requires 0 <= x < pix.Length1 reads pix => pix[y, x])
  }

  method ReadPalette(dib: seq<byte>, l: Layout) returns (palette: array<Color>)
    requires l.Fits(dib) && l.bits == 8
    ensures palette.Length == l.paletteCount
    ensures forall i :: 0 <= i < l.paletteCount ==> palette[i] == PaletteColor(dib, l, i)
  {
    palette := new Color[l.paletteCount];
    var i := 0;
    while i < palette.Length
      invariant i <= palette.Length
      invariant forall k :: 0 <= k < i ==> palette[k] == PaletteColor(dib, l, k)
    {
      var p := l.paletteAt + i * 4;
      palette[i] := Color(dib[p + 2], dib[p + 1], dib[p], 255);
      i := i + 1;
    }
  }

  /** One pixel, with every index checked. */
  method DecodePixel(dib: seq<byte>, l: Layout, palette: array<Color>, x: nat, y: nat) returns (c: Color)
    requires l.Fits(dib) && x < l.width && y < l.height
    requires l.bits == 8 ==> palette.Length == l.paletteCount
    requires l.bits == 8 ==> forall i :: 0 <= i < l.paletteCount ==> palette[i] == PaletteColor(dib, l, i)
    ensures c == Pixel(dib, l, x, y)
  {
    hide Channel;
    l.PixelFits(x);
    var row := StoredBytes(dib, l, y);
    if l.bits == 8 {
      var index := row[x] as nat;
      c := palette[if index >= palette.Length then 0 else index];
    } else if l.bits == 24 {
      c := Color(row[x * 3 + 2], row[x * 3 + 1], row[x * 3], 255);
    } else {
      var v := Uint32(row, x * 4);
      var r := MaskedChannel(v, l.rMask);
      var g := MaskedChannel(v, l.gMask);
      var b := MaskedChannel(v, l.bMask);
      c := Color(r, g, b, 255);
      if l.aMask != 0 {
        var a := MaskedChannel(v, l.aMask);
        c := c.(a := a);
      }
    }
  }

  /** One row, and whether its alpha channel says anything. */
  method DecodeRow(dib: seq<byte>, l: Layout, palette: array<Color>, pix: array2<Color>, y: nat) returns (anyAlpha: bool)
    requires l.Fits(dib) && y < l.height && pix.Length0 == l.height && pix.Length1 == l.width
    requires l.bits == 8 ==> palette.Length == l.paletteCount
    requires l.bits == 8 ==> forall i :: 0 <= i < l.paletteCount ==> palette[i] == PaletteColor(dib, l, i)
    modifies pix
    ensures GridRow(pix, y) == StoredRow(dib, l, y)
    ensures forall k, x :: 0 <= k < l.height && 0 <= x < l.width && k != y ==> pix[k, x] == old(pix[k, x])
    ensures anyAlpha <==> l.bits == 32 && l.aMask != 0 && !TransparentRow(StoredRow(dib, l, y))
  {
    hide Pixel;
    anyAlpha := false;
    var x := 0;
    while x < l.width
      invariant x <= l.width
      invariant forall k :: 0 <= k < x ==> pix[y, k] == Pixel(dib, l, k, y)
      invariant forall k, x :: 0 <= k < l.height && 0 <= x < l.width && k != y ==> pix[k, x] == old(pix[k, x])
      invariant anyAlpha <==> l.bits == 32 && l.aMask != 0 && exists k :: 0 <= k < x && pix[y, k].a != 0
    {
      var c := DecodePixel(dib, l, palette, x, y);
      pix[y, x] := c;
      if l.bits == 32 && l.aMask != 0 && c.a != 0 {
        anyAlpha := true;
      }
      x := x + 1;
    }
    ghost var row := StoredRow(dib, l, y);
    assert forall k :: 0 <= k < l.width ==> row[k] == pix[y, k];
  }

  method MakeOpaque(pix: array2<Color>)
    modifies pix
    ensures Grid(pix) == Opaque(old(Grid(pix)))
  {
    var y := 0;
    while y < pix.Length0
      invariant y <= pix.Length0
      invariant forall k, i :: 0 <= k < pix.Length0 && 0 <= i < pix.Length1 ==>
                  pix[k, i] == if k < y then old(pix[k, i]).(a := 255) else old(pix[k, i])
    {
      var x := 0;
      while x < pix.Length1
        invariant x <= pix.Length1
        invariant forall k, i :: 0 <= k < pix.Length0 && 0 <= i < pix.Length1 ==>
                    pix[k, i] == if k < y || (k == y && i < x) then old(pix[k, i]).(a := 255) else old(pix[k, i])
      {
        pix[y, x] := pix[y, x].(a := 255);
        x := x + 1;
      }
      y := y + 1;
    }
    assert forall k :: 0 <= k < pix.Length0 ==> GridRow(pix, k) == OpaqueRow(old(GridRow(pix, k)));
  }

  /** For any bytes: nothing outside them is read, and the result is what they show. */
  method DibToPng(dib: seq<byte>) returns (pix: array2?<Color>)
    ensures pix == null <==> Shown(dib).None?
    ensures pix != null ==> Shown(dib).value == Image(pix.Length1, pix.Length0, Grid(pix))
  {
    var layout := ReadLayout(dib);
    if layout.None? {
      return null;
    }
    var l := layout.value;
    var palette := new Color[0];
    if l.bits == 8 {
      palette := ReadPalette(dib, l);
    }
    var img := new Color[l.height, l.width];
    var anyAlpha := DecodeRows(dib, l, palette, img);
    if l.bits == 32 && l.aMask != 0 && !anyAlpha {
      MakeOpaque(img);
    }
    pix := img;
  }

  method DecodeRows(dib: seq<byte>, l: Layout, palette: array<Color>, img: array2<Color>) returns (anyAlpha: bool)
    requires l.Fits(dib) && img.Length0 == l.height && img.Length1 == l.width
    requires l.bits == 8 ==> palette.Length == l.paletteCount
    requires l.bits == 8 ==> forall i :: 0 <= i < l.paletteCount ==> palette[i] == PaletteColor(dib, l, i)
    modifies img
    ensures Grid(img) == Stored(dib, l)
    ensures anyAlpha <==> l.bits == 32 && l.aMask != 0 && !Transparent(Stored(dib, l))
  {
    hide Pixel, PaletteColor, TransparentRow, Layout.Fits, StoredRow;
    anyAlpha := false;
    var y := 0;
    while y < l.height
      invariant y <= l.height
      invariant forall k :: 0 <= k < y ==> GridRow(img, k) == StoredRow(dib, l, k)
      invariant anyAlpha <==> l.bits == 32 && l.aMask != 0 && exists k :: 0 <= k < y && !TransparentRow(StoredRow(dib, l, k))
    {
      label before:
      var any := DecodeRow(dib, l, palette, img, y);
      forall k | 0 <= k < y ensures GridRow(img, k) == StoredRow(dib, l, k) {
        assert old@before(GridRow(img, k)) == StoredRow(dib, l, k);
        assert GridRow(img, k) == old@before(GridRow(img, k));
      }
      anyAlpha := anyAlpha || any;
      y := y + 1;
    }
    ghost var rows := Stored(dib, l);
    assert forall k :: 0 <= k < l.height ==> rows[k] == StoredRow(dib, l, k);
    assert Grid(img) == rows;
  }

  // ---- pngToDIB ----------------------------------------------------------------------------

  method WritePixel(out: array<byte>, p: nat, c: Color)
    requires p + 4 <= out.Length
    modifies out
    ensures out[..p] == old(out[..p])
    ensures out[p..p + 4] == PixelBytes(c)
    ensures out[p + 4..] == old(out[p + 4..])
  {
    out[p], out[p + 1], out[p + 2], out[p + 3] := c.b, c.g, c.r, c.a;
  }

  method WriteRow(out: array<byte>, base: nat, row: seq<Color>)
    requires base + 4 * |row| <= out.Length
    modifies out
    ensures out[..base] == old(out[..])[..base]
    ensures out[base..base + 4 * |row|] == RowBytes(row)
    ensures out[base + 4 * |row|..] == old(out[..])[base + 4 * |row|..]
  {
    hide PixelBytes, RowBytes;
    var x := 0;
    ghost var head := out[..base];
    assert RowBytes(row[..0]) == [] by { NoPixels(row); }
    while x < |row|
      invariant x <= |row|
      invariant out[..base + 4 * x] == head + RowBytes(row[..x])
      invariant out[base + 4 * |row|..] == old(out[base + 4 * |row|..])
    {
      ghost var was := out[..];
      WritePixel(out, base + x * 4, row[x]);
      PixelAdded(was, out[..], head, row, x);
      x := x + 1;
    }
    assert row[..x] == row;
  }

  lemma NoPixels(row: seq<Color>)
    ensures RowBytes(row[..0]) == []
  {
  }

  lemma PixelAdded(was: seq<byte>, now: seq<byte>, head: seq<byte>, row: seq<Color>, x: nat)
    requires x < |row| && |head| + 4 * |row| <= |was| == |now|
    requires var p := |head| + 4 * x;
      && was[..p] == head + RowBytes(row[..x])
      && now[..p] == was[..p] && now[p..p + 4] == PixelBytes(row[x]) && now[p + 4..] == was[p + 4..]
    ensures now[..|head| + 4 * (x + 1)] == head + RowBytes(row[..x + 1])
    ensures now[|head| + 4 * |row|..] == was[|head| + 4 * |row|..]
  {
    hide PixelBytes;
    var p, rest := |head| + 4 * x, |head| + 4 * |row|;
    assert row[..x + 1][..x] == row[..x] && row[..x + 1][x] == row[x];
    assert now[..p + 4] == now[..p] + now[p..p + 4];
    assert now[rest..] == now[p + 4..][rest - p - 4..];
    assert was[rest..] == was[p + 4..][rest - p - 4..];
  }

  /** One more number after those already there. */
  method PutNext(out: array<byte>, off: nat, v: nat, width: nat)
    requires off + width <= out.Length && out[off..] == Zeros(out.Length - off)
    modifies out
    ensures out[..off + width] == old(out[..off]) + LittleEndian(v, width)
    ensures out[off + width..] == Zeros(out.Length - off - width)
  {
    PutLittleEndian(out, off, v, width);
    assert out[..off + width] == out[..off] + out[off..off + width];
  }

  method WriteHeader(out: array<byte>, width: nat, height: nat)
    requires out.Length >= HEADER && out[..] == Zeros(out.Length)
    modifies out
    ensures out[..HEADER] == Header(width, height)
  {
    hide LittleEndian, Zeros;
    assert out[0..] == out[..];
    assert out[..0] == [];
    PutNext(out, 0, HEADER, 4);
    PutNext(out, 4, width, 4);
    PutNext(out, 8, height, 4);
    PutNext(out, 12, 1, 2);
    PutNext(out, 14, 32, 2);
    PutNext(out, 16, RGB, 4);
    PutNext(out, 20, width * 4 * height, 4);
    PutNext(out, 24, 2835, 4);
    PutNext(out, 28, 2835, 4);
    ZerosFollow(out[..], 32, HEADER);
  }

  lemma ZerosFollow(s: seq<byte>, from: nat, to: nat)
    requires from <= to <= |s| && s[from..] == Zeros(|s| - from)
    ensures s[..to] == s[..from] + Zeros(to - from)
  {
    assert s[..to] == s[..from] + s[from..][..to - from];
  }

  ghost function Done(height: nat, y: nat, stride: nat): nat
    requires y <= height
  {
    HEADER + (height - y) * stride
  }

  lemma NextRow(height: nat, y: nat, stride: nat)
    requires y < height
    ensures RowStart(height, y, stride) + stride == Done(height, y, stride)
    ensures RowStart(height, y, stride) == Done(height, y + 1, stride) >= HEADER
    ensures Done(height, y, stride) <= Done(height, 0, stride)
  {
    var n: nat := height - y;
    Distribute(n, n - 1, stride);
    Distribute(height, n, stride);
    NotNegative(n - 1, stride);
    NotNegative(y, stride);
  }

  lemma NotNegative(a: nat, b: nat)
    ensures a * b >= 0
  {
  }

  method PngToDib(img: Image) returns (dib: Option<seq<byte>>)
    requires img.Valid()
    ensures dib == if 0 < img.width <= MAX_SIDE && 0 < img.height <= MAX_SIDE then Some(Encoded(img)) else None
  {
    hide Header, Body, Encoded, Zeros;
    if img.width <= 0 || img.height <= 0 || img.width > MAX_SIDE || img.height > MAX_SIDE {
      return None;
    }
    var stride := img.width * 4;
    var out := new byte[HEADER + stride * img.height](_ => 0);
    assert out[..] == Zeros(out.Length) by { AreZeros(out[..]); }
    WriteHeader(out, img.width, img.height);
    WriteRows(out, img);
    EncodedIs(img, out[..]);
    return Some(out[..]);
  }

  lemma AreZeros(s: seq<byte>)
    requires forall i :: 0 <= i < |s| ==> s[i] == 0
    ensures s == Zeros(|s|)
  {
  }

  /** The rows into the buffer, the first one at its end. */
  method WriteRows(out: array<byte>, img: Image)
    requires img.Valid() && out.Length == HEADER + img.width * 4 * img.height
    modifies out
    ensures out[..HEADER] == old(out[..HEADER]) && out[HEADER..] == Body(img.rows)
  {
    hide RowStart, Done, RowBytes, Body;
    var stride := img.width * 4;
    DoneEnds(img.height, stride);
    assert out[out.Length..] == Body(img.rows[..0]) by { NoRows(img.rows); }
    var y := 0;
    while y < img.height
      invariant y <= img.height
      invariant HEADER <= Done(img.height, y, stride) <= Done(img.height, 0, stride) == out.Length
      invariant out[..HEADER] == old(out[..HEADER])
      invariant out[Done(img.height, y, stride)..] == Body(img.rows[..y])
    {
      NextRow(img.height, y, stride);
      WriteNextRow(out, RowStart(img.height, y, stride), img.rows, y);
      y := y + 1;
    }
    assert img.rows[..y] == img.rows;
  }

  lemma NoRows(rows: seq<seq<Color>>)
    ensures Body(rows[..0]) == []
  {
  }

  lemma EncodedIs(img: Image, s: seq<byte>)
    requires HEADER <= |s| && s[..HEADER] == Header(img.width, img.height) && s[HEADER..] == Body(img.rows)
    ensures s == Encoded(img)
  {
    hide Header, Body;
    assert s == s[..HEADER] + s[HEADER..];
  }

  lemma DoneEnds(height: nat, stride: nat)
    ensures Done(height, 0, stride) == HEADER + stride * height && Done(height, height, stride) == HEADER
  {
  }

  method WriteNextRow(out: array<byte>, base: nat, rows: seq<seq<Color>>, y: nat)
    requires y < |rows| && HEADER <= base && base + 4 * |rows[y]| <= out.Length
    requires out[base + 4 * |rows[y]|..] == Body(rows[..y])
    modifies out
    ensures out[..HEADER] == old(out[..HEADER])
    ensures out[base..] == Body(rows[..y + 1])
  {
    hide RowBytes, Body;
    var row := rows[y];
    WriteRow(out, base, row);
    assert out[..HEADER] == out[..base][..HEADER];
    assert out[base..] == out[base..base + 4 * |row|] + out[base + 4 * |row|..];
    BodyGrows(rows, y);
  }
}
