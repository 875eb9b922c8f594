// The bitmaps dibToPNG reads (clipboard_image.go), each built here from what it
// is to show: 24-bit rows, indices into a palette, and pixels under channel masks.
module ClipboardForms {
  import opened Wrappers
  import opened Bytes
  import opened ChannelMask
  import opened ClipboardImage

  // ---- Which bytes are a bitmap ----------------------------------------------------------

  predicate KnownSize(size: nat) {
    size == HEADER || size == V4_HEADER || size == V5_HEADER
  }

  /** Where the header and its masks end. */
  function MasksEnd(size: nat, compression: nat): nat {
    if size == HEADER && compression == BITFIELDS then HEADER + 12 else size
  }

  function PaletteSize(bits: nat, used: nat): nat {
    if bits != 8 then 0 else if 0 < used <= 256 then used else 256
  }

  /** The length of a stored row: its bits, up to a whole number of 32-bit words. */
  function StrideOf(width: nat, bits: nat): nat {
    (width * bits + 31) / 32 * 4
  }

  ghost predicate Acceptable(dib: seq<byte>) {
    && |dib| >= HEADER && KnownSize(Uint32(dib, 0))
    && var width, height, bits := Int32(Uint32(dib, 4)), Int32(Uint32(dib, 8)), Uint16(dib, 14);
    && 0 < width <= MAX_SIDE && -MAX_SIDE <= height <= MAX_SIDE && height != 0 && bits in {8, 24, 32}
    && Uint32(dib, 16) in {RGB, BITFIELDS}
    && MasksEnd(Uint32(dib, 0), Uint32(dib, 16)) + 4 * PaletteSize(bits, Uint32(dib, 32))
       + StrideOf(width, bits) * (if height < 0 then -height else height) <= |dib|
  }

  /** A bitmap is accepted exactly when its header is known, its sides and depth are in
      range, and its masks, palette and rows are all there. */
  lemma AcceptedIff(dib: seq<byte>)
    ensures ReadLayout(dib).Some? <==> Acceptable(dib)
  {
    hide Uint32, Uint16, Int32, ReadMasks, ReadRest, StrideOf;
    if |dib| >= HEADER && KnownSize(Uint32(dib, 0)) && Uint32(dib, 0) <= |dib| {
      HeightNegated(Uint32(dib, 8));
      MasksFound(dib, Uint32(dib, 0), Uint32(dib, 16), Uint16(dib, 14));
      RestFound(dib);
    }
  }

  lemma MasksFound(dib: seq<byte>, size: nat, compression: nat, bits: nat)
    requires KnownSize(size) && size <= |dib|
    ensures var m := ReadMasks(dib, size, compression, bits);
      (m.Some? <==> MasksEnd(size, compression) <= |dib|) && (m.Some? ==> m.value.end == MasksEnd(size, compression))
  {
    hide Uint32;
  }

  lemma RestFound(dib: seq<byte>)
    ensures forall width: nat, height: nat, topDown: bool, bits: nat, used: nat, m: Masks ::
      ReadRest.requires(dib, width, height, topDown, bits, used, m) ==>
      (ReadRest(dib, width, height, topDown, bits, used, m).Some? <==>
       bits in {8, 24, 32} && m.end + 4 * PaletteSize(bits, used) + StrideOf(width, bits) * height <= |dib|)
  {
  }

  lemma HeightNegated(v: nat)
    requires v < UINT32_LIMIT
    ensures var h := Int32(v); h < 0 ==> Int32(-h) == if h == -0x8000_0000 then h else -h
  {
  }

  // ---- A header of any kind --------------------------------------------------------------

  /** What comes before the palette and the rows; `rest` holds the masks, if any,
      and what nothing reads. */
  datatype Form = Form(size: nat, width: nat, height: nat, bits: nat, compression: nat, used: nat, rest: seq<byte>) {
    ghost predicate Valid() {
      && KnownSize(size) && 0 < width <= MAX_SIDE && 0 < height <= MAX_SIDE && bits in {8, 24, 32}
      && (compression == RGB || compression == BITFIELDS) && used < UINT32_LIMIT
      && HEADER + |rest| == MasksEnd(size, compression)
    }

    function Start(): (s: seq<byte>)
      ensures |s| == HEADER + |rest|
    {
      First(size, width, height, bits, compression, used) + rest
    }

    ghost predicate Takes(palette: seq<Color>, rows: seq<seq<byte>>) {
      && |palette| == PaletteSize(bits, used) && |rows| == height
      && forall y :: 0 <= y < |rows| ==> |rows[y]| == StrideOf(width, bits)
    }

    function Bitmap(palette: seq<Color>, rows: seq<seq<byte>>): seq<byte> {
      Start() + RowBytes(palette) + Stacked(rows)
    }
  }

  /** The first forty bytes. */
  function First(size: nat, width: nat, height: nat, bits: nat, compression: nat, used: nat): (s: seq<byte>)
    ensures |s| == HEADER
  {
    LittleEndian(size, 4) + LittleEndian(width, 4) + LittleEndian(height, 4) + LittleEndian(1, 2) + LittleEndian(bits, 2)
    + LittleEndian(compression, 4) + Zeros(12) + LittleEndian(used, 4) + Zeros(4)
  }

  lemma FirstReads(dib: seq<byte>, size: nat, width: nat, height: nat, bits: nat, compression: nat, used: nat)
    requires |dib| >= HEADER && dib[..HEADER] == First(size, width, height, bits, compression, used)
    requires size <= V5_HEADER && width <= MAX_SIDE && height <= MAX_SIDE && bits <= 32 && compression <= 3 && used < UINT32_LIMIT
    ensures Uint32(dib, 0) == size && Uint32(dib, 4) == width && Uint32(dib, 8) == height
    ensures Uint16(dib, 14) == bits && Uint32(dib, 16) == compression && Uint32(dib, 32) == used
  {
    hide LittleEndian, FromLittleEndian, Capacity;
    Capacities();
    var h := First(size, width, height, bits, compression, used);
    assert dib[0..4] == h[0..4] == LittleEndian(size, 4);
    LittleEndianRoundTrip(size, 4);
    assert dib[4..8] == h[4..8] == LittleEndian(width, 4);
    LittleEndianRoundTrip(width, 4);
    assert dib[8..12] == h[8..12] == LittleEndian(height, 4);
    LittleEndianRoundTrip(height, 4);
    assert dib[14..16] == h[14..16] == LittleEndian(bits, 2);
    LittleEndianRoundTrip(bits, 2);
    assert dib[16..20] == h[16..20] == LittleEndian(compression, 4);
    LittleEndianRoundTrip(compression, 4);
    assert dib[32..36] == h[32..36] == LittleEndian(used, 4);
    LittleEndianRoundTrip(used, 4);
  }

  /** The layout read from a form. */
  function LayoutFor(f: Form, m: Masks): Layout {
    Layout(f.width, f.height, false, f.bits, m.end, PaletteSize(f.bits, f.used), m.end + 4 * PaletteSize(f.bits, f.used),
           m.r, m.g, m.b, m.a)
  }

  lemma BitmapLength(f: Form, palette: seq<Color>, rows: seq<seq<byte>>)
    requires f.Valid() && f.Takes(palette, rows)
    ensures |f.Bitmap(palette, rows)| == HEADER + |f.rest| + 4 * |palette| + StrideOf(f.width, f.bits) * f.height
    ensures f.Bitmap(palette, rows)[..HEADER] == First(f.size, f.width, f.height, f.bits, f.compression, f.used)
  {
    hide Stacked, RowBytes, First, StrideOf;
    StackedLength(rows, StrideOf(f.width, f.bits));
  }

  lemma RestOfForm(f: Form, dib: seq<byte>, m: Masks)
    requires f.Valid() && ReadRest.requires(dib, f.width, f.height, false, f.bits, f.used, m)
    requires |dib| == m.end + 4 * PaletteSize(f.bits, f.used) + StrideOf(f.width, f.bits) * f.height
    ensures ReadRest(dib, f.width, f.height, false, f.bits, f.used, m) == Some(LayoutFor(f, m))
  {
  }

  /** What is left to read once the first forty bytes are known. */
  lemma FirstLeaves(dib: seq<byte>, f: Form)
    requires f.Valid() && MasksEnd(f.size, f.compression) <= |dib|
    requires dib[..HEADER] == First(f.size, f.width, f.height, f.bits, f.compression, f.used)
    ensures var m := ReadMasks(dib, f.size, f.compression, f.bits);
      m.Some? && ReadLayout(dib) == ReadRest(dib, f.width, f.height, false, f.bits, f.used, m.value)
  {
    hide First, Uint32, Uint16, Int32, ReadMasks, ReadRest, StrideOf;
    FirstReads(dib, f.size, f.width, f.height, f.bits, f.compression, f.used);
    SmallInt32(f.width);
    SmallInt32(f.height);
    MasksFound(dib, f.size, f.compression, f.bits);
  }

  /** Every form is accepted, and read as what it says. */
  lemma FormLayout(f: Form, palette: seq<Color>, rows: seq<seq<byte>>)
    requires f.Valid() && f.Takes(palette, rows)
    ensures var dib := f.Bitmap(palette, rows);
      && f.size <= |dib|
      && var m := ReadMasks(dib, f.size, f.compression, f.bits);
      && m.Some? && m.value.end == HEADER + |f.rest|
      && ReadLayout(dib) == Some(LayoutFor(f, m.value))
  {
    hide First, Form.Bitmap, ReadLayout, ReadMasks, ReadRest, StrideOf, LayoutFor;
    var dib := f.Bitmap(palette, rows);
    BitmapLength(f, palette, rows);
    FirstLeaves(dib, f);
    MasksFound(dib, f.size, f.compression, f.bits);
    RestOfForm(f, dib, ReadMasks(dib, f.size, f.compression, f.bits).value);
  }

  lemma StrideIs(l: Layout)
    ensures l.Stride() == StrideOf(l.width, l.bits)
  {
  }

  /** Each row is found where it was put. */
  lemma FormRow(f: Form, palette: seq<Color>, rows: seq<seq<byte>>, m: Masks, y: nat)
    requires f.Valid() && f.Takes(palette, rows) && y < f.height && m.end == HEADER + |f.rest|
    ensures var dib, l := f.Bitmap(palette, rows), LayoutFor(f, m);
      l.offset + l.Stride() * l.height <= |dib| && StoredBytes(dib, l, y) == rows[y]
  {
    hide Stacked, RowBytes, Form.Start, StrideOf, Layout.Stride, First;
    BitmapLength(f, palette, rows);
    var l, head := LayoutFor(f, m), f.Start() + RowBytes(palette);
    StrideIs(l);
    StackedAt(head, rows, y, l.Stride());
    assert |head| - HEADER + RowStart(|rows|, y, l.Stride()) == l.RowAt(y);
  }

  lemma FormPalette(f: Form, palette: seq<Color>, rows: seq<seq<byte>>, i: nat)
    requires i < |palette|
    ensures var at := HEADER + |f.rest| + 4 * i;
      at + 4 <= |f.Bitmap(palette, rows)| && f.Bitmap(palette, rows)[at..at + 4] == PixelBytes(palette[i])
  {
    hide Stacked, RowBytes, First;
    RowBytesAt(palette, i);
    var s, p := f.Start(), RowBytes(palette);
    assert f.Bitmap(palette, rows)[|s| + 4 * i..|s| + 4 * i + 4] == p[4 * i..4 * i + 4];
  }

  /** Rows are what their pixels are. */
  lemma StoredIs(dib: seq<byte>, l: Layout, rows: seq<seq<Color>>)
    requires l.Fits(dib) && |rows| == l.height && forall y :: 0 <= y < l.height ==> |rows[y]| == l.width
    requires forall y: nat, x: nat :: y < l.height && x < l.width ==> Pixel(dib, l, x, y) == rows[y][x]
    ensures Stored(dib, l) == rows
  {
    hide Pixel;
    forall y | 0 <= y < l.height ensures StoredRow(dib, l, y) == rows[y] {
    }
  }

  /** A row is padded to its stored length, with anything. */
  ghost predicate Pads(stored: seq<byte>, s: seq<byte>, stride: nat) {
    |s| <= |stored| == stride && stored[..|s|] == s
  }

  lemma PaddedAt(stored: seq<byte>, s: seq<byte>, stride: nat, i: nat)
    requires Pads(stored, s, stride) && i < |s|
    ensures stored[i] == s[i]
  {
    assert stored[..|s|][i] == s[i];
  }

  // ---- 24 bits -----------------------------------------------------------------------------

  /** Blue, green and red for each pixel. */
  function Bytes24(row: seq<Color>): (s: seq<byte>)
    ensures |s| == 3 * |row|
  {
    if row == [] then [] else Bytes24(row[..|row| - 1]) + [row[|row| - 1].b, row[|row| - 1].g, row[|row| - 1].r]
  }

  lemma {:induction false} Bytes24At(row: seq<Color>, x: nat)
    requires x < |row|
    ensures Bytes24(row)[3 * x] == row[x].b && Bytes24(row)[3 * x + 1] == row[x].g && Bytes24(row)[3 * x + 2] == row[x].r
  {
    if x < |row| - 1 {
      Bytes24At(row[..|row| - 1], x);
    }
  }

  ghost predicate Holds24(f: Form, stored: seq<seq<byte>>, img: Image) {
    && f.Valid() && f.bits == 24 && f.width == img.width && f.height == img.height == |stored| && img.Valid()
    && forall y :: 0 <= y < img.height ==> Pads(stored[y], Bytes24(img.rows[y]), StrideOf(img.width, 24))
  }

  lemma Pixel24(f: Form, stored: seq<seq<byte>>, img: Image, m: Masks, x: nat, y: nat)
    requires Holds24(f, stored, img) && x < img.width && y < img.height
    requires LayoutFor(f, m).Fits(f.Bitmap([], stored)) && m.end == HEADER + |f.rest|
    ensures Pixel(f.Bitmap([], stored), LayoutFor(f, m), x, y) == img.rows[y][x].(a := 255)
  {
    hide Form.Bitmap, Channel, Bytes24, FromLittleEndian;
    FormRow(f, [], stored, m, y);
    var bytes := Bytes24(img.rows[y]);
    Bytes24At(img.rows[y], x);
    PaddedAt(stored[y], bytes, StrideOf(img.width, 24), 3 * x);
    PaddedAt(stored[y], bytes, StrideOf(img.width, 24), 3 * x + 1);
    PaddedAt(stored[y], bytes, StrideOf(img.width, 24), 3 * x + 2);
  }

  /** A 24-bit bitmap shows its colours, whatever pads its rows. */
  lemma Shows24(f: Form, stored: seq<seq<byte>>, img: Image)
    requires Holds24(f, stored, img)
    ensures Shown(f.Bitmap([], stored)) == Some(Image(img.width, img.height, Opaque(img.rows)))
  {
    hide Form.Bitmap, ReadLayout, Pixel, Bytes24, ReadMasks;
    FormLayout(f, [], stored);
    var dib := f.Bitmap([], stored);
    var m := ReadMasks(dib, f.size, f.compression, f.bits).value;
    forall y: nat, x: nat | y < img.height && x < img.width ensures Pixel(dib, LayoutFor(f, m), x, y) == img.rows[y][x].(a := 255) {
      Pixel24(f, stored, img, m, x, y);
    }
    StoredIs(dib, LayoutFor(f, m), Opaque(img.rows));
  }

  // ---- A palette ----------------------------------------------------------------------------

  /** An index past the palette's end stands for its first colour. */
  function Looked(palette: seq<Color>, index: byte): Color
    requires palette != []
  {
    palette[if (index as nat) < |palette| then index as nat else 0].(a := 255)
  }

  function LookedUp(palette: seq<Color>, indices: seq<seq<byte>>): (rows: seq<seq<Color>>)
    requires palette != []
  {
    seq(|indices|, y requires 0 <= y < |indices| =>
      seq(|indices[y]|, x requires 0 <= x < |indices[y]| => Looked(palette, indices[y][x])))
  }

  ghost predicate HoldsIndices(f: Form, palette: seq<Color>, stored: seq<seq<byte>>, indices: seq<seq<byte>>) {
    && f.Valid() && f.bits == 8 && |palette| == PaletteSize(8, f.used) && f.height == |indices| == |stored|
    && forall y :: 0 <= y < f.height ==> |indices[y]| == f.width && Pads(stored[y], indices[y], StrideOf(f.width, 8))
  }

  lemma PixelIndexed(f: Form, palette: seq<Color>, stored: seq<seq<byte>>, indices: seq<seq<byte>>, m: Masks, x: nat, y: nat)
    requires HoldsIndices(f, palette, stored, indices) && x < f.width && y < f.height
    requires LayoutFor(f, m).Fits(f.Bitmap(palette, stored)) && m.end == HEADER + |f.rest|
    ensures Pixel(f.Bitmap(palette, stored), LayoutFor(f, m), x, y) == Looked(palette, indices[y][x])
  {
    hide Form.Bitmap, Channel, FromLittleEndian, PaletteColor, Layout.Fits, Layout.Stride, StrideOf, StoredBytes;
    FormRow(f, palette, stored, m, y);
    PaddedAt(stored[y], indices[y], StrideOf(f.width, 8), x);
    FormColor(f, palette, stored, m, if (indices[y][x] as nat) < |palette| then indices[y][x] as nat else 0);
  }

  lemma FormColor(f: Form, palette: seq<Color>, stored: seq<seq<byte>>, m: Masks, i: nat)
    requires f.bits == 8 && i < |palette| == PaletteSize(8, f.used) && m.end == HEADER + |f.rest|
    requires LayoutFor(f, m).Fits(f.Bitmap(palette, stored))
    ensures PaletteColor(f.Bitmap(palette, stored), LayoutFor(f, m), i) == palette[i].(a := 255)
  {
    hide Form.Bitmap, Layout.Stride;
    var dib, at := f.Bitmap(palette, stored), m.end + 4 * i;
    FormPalette(f, palette, stored, i);
    assert dib[at..at + 4][0] == dib[at] && dib[at..at + 4][1] == dib[at + 1] && dib[at..at + 4][2] == dib[at + 2];
  }

  /** A bitmap with a palette shows the colours its indices stand for. */
  lemma ShowsPalette(f: Form, palette: seq<Color>, stored: seq<seq<byte>>, indices: seq<seq<byte>>)
    requires HoldsIndices(f, palette, stored, indices)
    ensures Shown(f.Bitmap(palette, stored)) == Some(Image(f.width, f.height, LookedUp(palette, indices)))
  {
    hide Form.Bitmap, ReadLayout, Pixel, ReadMasks, Looked;
    FormLayout(f, palette, stored);
    var dib := f.Bitmap(palette, stored);
    var m := ReadMasks(dib, f.size, f.compression, f.bits).value;
    forall y: nat, x: nat | y < f.height && x < f.width
      ensures Pixel(dib, LayoutFor(f, m), x, y) == LookedUp(palette, indices)[y][x]
    {
      PixelIndexed(f, palette, stored, indices, m, x, y);
    }
    StoredIs(dib, LayoutFor(f, m), LookedUp(palette, indices));
  }

  // ---- Channel masks ------------------------------------------------------------------------

  /** The bits a channel has in a pixel, which may be none. */
  datatype Span = Span(shift: nat, bits: nat) {
    function Mask(): nat { Contiguous(shift, bits) }

    /** The channel a pixel has. */
    function Of(v: nat): byte {
      if bits == 0 then 0
      else
        ScaledIsByte(FieldAt(v, shift, bits), bits);
        Scaled(FieldAt(v, shift, bits), bits) as byte
    }
  }

  datatype Spans = Spans(r: Span, g: Span, b: Span, a: Span) {
    ghost predicate Valid() {
      r.Mask() < UINT32_LIMIT && g.Mask() < UINT32_LIMIT && b.Mask() < UINT32_LIMIT && a.Mask() < UINT32_LIMIT
    }

    function Of(v: nat): Color {
      Color(r.Of(v), g.Of(v), b.Of(v), if a.bits > 0 then a.Of(v) else 255)
    }
  }

  const DefaultSpans := Spans(Span(16, 8), Span(8, 8), Span(0, 8), Span(0, 0))

  lemma SpanChannel(s: Span, v: nat)
    ensures Channel(v, s.Mask()) == s.Of(v) && (s.Mask() == 0 <==> s.bits == 0)
  {
    hide Channel, Scaled, FieldAt;
    if s.bits == 0 {
      ShiftedZero(s.shift);
      NoMask(v);
    } else {
      ContiguousChannel(v, s.shift, s.bits);
      TrailingZerosOf(s.shift, s.bits);
    }
  }

  lemma NoMask(v: nat)
    ensures Channel(v, 0) == 0
  {
  }

  /** The pixels of a row as little-endian words. */
  function Words(row: seq<nat>): (s: seq<byte>)
    ensures |s| == 4 * |row|
  {
    if row == [] then [] else Words(row[..|row| - 1]) + LittleEndian(row[|row| - 1], 4)
  }

  lemma {:induction false} WordsAt(row: seq<nat>, x: nat)
    requires x < |row| && row[x] < UINT32_LIMIT
    ensures Uint32(Words(row), 4 * x) == row[x]
  {
    hide LittleEndian, FromLittleEndian, Capacity;
    var n := |row| - 1;
    if x < n {
      WordsAt(row[..n], x);
      assert Words(row)[4 * x..4 * x + 4] == Words(row[..n])[4 * x..4 * x + 4];
    } else {
      Capacities();
      LittleEndianRoundTrip(row[n], 4);
      assert Words(row)[4 * n..4 * n + 4] == LittleEndian(row[n], 4);
    }
  }

  /** What the header holds after its first forty bytes. */
  function MaskBytes(s: Spans): (b: seq<byte>)
    ensures |b| == 16
  {
    LittleEndian(s.r.Mask(), 4) + LittleEndian(s.g.Mask(), 4) + LittleEndian(s.b.Mask(), 4) + LittleEndian(s.a.Mask(), 4)
  }

  /** The masks a 32-bit form holds, as far as it has room for them. */
  ghost predicate HoldsMasks(f: Form, s: Spans) {
    && f.Valid() && f.bits == 32 && s.Valid()
    && (f.compression == RGB ==> s.(a := DefaultSpans.a) == DefaultSpans)
    && (if f.size != HEADER then f.rest[..16] == MaskBytes(s)
        else s.a.bits == 0 && (f.compression == BITFIELDS ==> f.rest == MaskBytes(s)[..12]))
  }

  ghost predicate HoldsWords(f: Form, s: Spans, words: seq<seq<nat>>) {
    && HoldsMasks(f, s) && f.height == |words|
    && forall y :: 0 <= y < f.height ==> |words[y]| == f.width && forall x :: 0 <= x < f.width ==> words[y][x] < UINT32_LIMIT
  }

  function WordRows(words: seq<seq<nat>>): (rows: seq<seq<byte>>)
    ensures |rows| == |words|
  {
    seq(|words|, y requires 0 <= y < |words| => Words(words[y]))
  }

  function Colors(s: Spans, words: seq<seq<nat>>): (rows: seq<seq<Color>>) {
    seq(|words|, y requires 0 <= y < |words| => seq(|words[y]|, x requires 0 <= x < |words[y]| => s.Of(words[y][x])))
  }

  /** Where a form holds a mask. */
  lemma HeldMask(f: Form, s: Spans, k: nat)
    requires HoldsMasks(f, s) && k < 4 && (f.size != HEADER || (f.compression == BITFIELDS && k < 3))
    ensures 4 * k + 4 <= |f.rest| && f.rest[4 * k..4 * k + 4] == MaskBytes(s)[4 * k..4 * k + 4]
  {
    hide MaskBytes, Spans.Valid;
    if f.size != HEADER {
      SliceOfSlice(f.rest, 0, 16, 4 * k, 4 * k + 4);
    } else {
      SliceOfSlice(MaskBytes(s), 0, 12, 4 * k, 4 * k + 4);
    }
  }

  lemma RestReads(f: Form, dib: seq<byte>, s: Spans, k: nat, v: nat)
    requires |dib| >= HEADER + |f.rest| && dib[HEADER..HEADER + |f.rest|] == f.rest
    requires HoldsMasks(f, s) && k < 4 && (f.size != HEADER || (f.compression == BITFIELDS && k < 3))
    requires v < UINT32_LIMIT && MaskBytes(s)[4 * k..4 * k + 4] == LittleEndian(v, 4)
    ensures Uint32(dib, HEADER + 4 * k) == v
  {
    hide LittleEndian, FromLittleEndian, Capacity, MaskBytes, HoldsMasks;
    Capacities();
    LittleEndianRoundTrip(v, 4);
    HeldMask(f, s, k);
    var at := HEADER + 4 * k;
    SliceOfSlice(dib, HEADER, HEADER + |f.rest|, at, at + 4);
  }

  lemma MaskBytesAt(s: Spans)
    ensures var b := MaskBytes(s);
      && b[0..4] == LittleEndian(s.r.Mask(), 4) && b[4..8] == LittleEndian(s.g.Mask(), 4)
      && b[8..12] == LittleEndian(s.b.Mask(), 4) && b[12..16] == LittleEndian(s.a.Mask(), 4)
  {
  }

  /** The masks are read back. */
  lemma MasksRead(f: Form, s: Spans, dib: seq<byte>)
    requires HoldsMasks(f, s) && |dib| >= HEADER + |f.rest| && dib[HEADER..HEADER + |f.rest|] == f.rest
    ensures ReadMasks(dib, f.size, f.compression, 32)
            == Some(Masks(s.r.Mask(), s.g.Mask(), s.b.Mask(), s.a.Mask(), HEADER + |f.rest|))
  {
    hide Uint32, MaskBytes, Span.Mask;
    MaskBytesAt(s);
    if f.size != HEADER {
      RestReads(f, dib, s, 3, s.a.Mask());
    } else {
      NoMaskHeld(s.a);
    }
    if f.compression == BITFIELDS {
      RestReads(f, dib, s, 0, s.r.Mask());
      RestReads(f, dib, s, 1, s.g.Mask());
      RestReads(f, dib, s, 2, s.b.Mask());
    } else {
      DefaultSpanMasks();
    }
  }

  lemma NoMaskHeld(s: Span)
    requires s.bits == 0
    ensures s.Mask() == 0
  {
    NoBits(s.shift);
  }

  lemma NoBits(shift: nat)
    ensures Contiguous(shift, 0) == 0
  {
    ShiftedZero(shift);
  }

  lemma DefaultSpanMasks()
    ensures DefaultSpans.r.Mask() == 0xff_0000 && DefaultSpans.g.Mask() == 0xff00 && DefaultSpans.b.Mask() == 0xff
  {
    ByteMasks();
  }

  lemma BitmapRest(f: Form, rows: seq<seq<byte>>)
    ensures var dib := f.Bitmap([], rows); |dib| >= HEADER + |f.rest| && dib[HEADER..HEADER + |f.rest|] == f.rest
  {
    hide First, Stacked;
  }

  lemma PixelMasked(f: Form, s: Spans, words: seq<seq<nat>>, x: nat, y: nat)
    requires HoldsWords(f, s, words) && x < f.width && y < f.height
    requires |WordRows(words)| == f.height
    ensures var dib, m := f.Bitmap([], WordRows(words)), Masks(s.r.Mask(), s.g.Mask(), s.b.Mask(), s.a.Mask(), HEADER + |f.rest|);
      LayoutFor(f, m).Fits(dib) && Pixel(dib, LayoutFor(f, m), x, y) == s.Of(words[y][x])
  {
    hide Form.Bitmap, Channel, FromLittleEndian, Words, Span.Mask, Span.Of, MaskBytes;
    var m := Masks(s.r.Mask(), s.g.Mask(), s.b.Mask(), s.a.Mask(), HEADER + |f.rest|);
    FormRow(f, [], WordRows(words), m, y);
    var v := words[y][x];
    WordsAt(words[y], x);
    SpanChannel(s.r, v);
    SpanChannel(s.g, v);
    SpanChannel(s.b, v);
    SpanChannel(s.a, v);
  }

  /** A 32-bit bitmap shows the scaled fields its masks select; an alpha channel
      counts unless it is zero everywhere. */
  lemma ShowsMasks(f: Form, s: Spans, words: seq<seq<nat>>)
    requires HoldsWords(f, s, words)
    ensures var rows := Colors(s, words);
      Shown(f.Bitmap([], WordRows(words)))
      == Some(Image(f.width, f.height, if s.a.bits > 0 && Transparent(rows) then Opaque(rows) else rows))
  {
    hide Form.Bitmap, ReadLayout, Pixel, ReadMasks, Spans.Of, Span.Mask;
    var dib := f.Bitmap([], WordRows(words));
    FormLayout(f, [], WordRows(words));
    BitmapRest(f, WordRows(words));
    MasksRead(f, s, dib);
    SpanChannel(s.a, 0);
    var m := Masks(s.r.Mask(), s.g.Mask(), s.b.Mask(), s.a.Mask(), HEADER + |f.rest|);
    forall y: nat, x: nat | y < f.height && x < f.width ensures Pixel(dib, LayoutFor(f, m), x, y) == Colors(s, words)[y][x] {
      PixelMasked(f, s, words, x, y);
    }
    StoredIs(dib, LayoutFor(f, m), Colors(s, words));
  }

  // ---- The header that is written --------------------------------------------------------------

  /** The bitmap made for an image has one plane, says how long its pixels are, and is
      no longer than that. */
  lemma EncodedHeader(img: Image)
    requires img.Valid() && 0 < img.width <= MAX_SIDE && 0 < img.height <= MAX_SIDE
    ensures var dib := Encoded(img);
      && |dib| == HEADER + 4 * img.width * img.height
      && Uint16(dib, 12) == 1 && Uint32(dib, 20) == |dib| - HEADER
      && Uint32(dib, 24) == Uint32(dib, 28) == 2835 && Uint32(dib, 32) == Uint32(dib, 36) == 0
  {
    hide LittleEndian, FromLittleEndian, Capacity, Body;
    Capacities();
    BodyLength(img.rows, img.width);
    var dib, h := Encoded(img), Header(img.width, img.height);
    var length := img.width * 4 * img.height;
    PixelsFit(img.width, img.height);
    assert dib[12..14] == h[12..14] == LittleEndian(1, 2);
    LittleEndianRoundTrip(1, 2);
    assert dib[20..24] == h[20..24] == LittleEndian(length, 4);
    LittleEndianRoundTrip(length, 4);
    assert dib[24..28] == h[24..28] == LittleEndian(2835, 4);
    assert dib[28..32] == h[28..32] == LittleEndian(2835, 4);
    LittleEndianRoundTrip(2835, 4);
    assert dib[32..36] == h[32..36] == Zeros(4) == dib[36..40];
    ZeroReads();
  }

  lemma PixelsFit(width: nat, height: nat)
    requires width <= MAX_SIDE && height <= MAX_SIDE
    ensures width * 4 * height == height * (4 * width) == 4 * width * height < UINT32_LIMIT
  {
    var area := width * height;
    NotNegative(MAX_SIDE - width, height);
    Distribute(MAX_SIDE, width, height);
    assert area <= MAX_SIDE * height;
    Areas(width, height, area);
  }

  lemma Areas(width: nat, height: nat, area: nat)
    requires area == width * height
    ensures width * 4 * height == height * (4 * width) == 4 * width * height == 4 * area
  {
  }

  lemma ZeroReads()
    ensures FromLittleEndian(Zeros(4)) == 0
  {
    assert Zeros(4)[1..] == Zeros(3) && Zeros(3)[1..] == Zeros(2) && Zeros(2)[1..] == Zeros(1) && Zeros(1)[1..] == [];
    assert FromLittleEndian(Zeros(1)) == 0;
    assert FromLittleEndian(Zeros(2)) == 0;
    assert FromLittleEndian(Zeros(3)) == 0;
  }

  // ---- Transparency kept -------------------------------------------------------------------

  const AlphaSpans := DefaultSpans.(a := Span(24, 8))

  function PixelWords(rows: seq<seq<Color>>): (words: seq<seq<nat>>) {
    seq(|rows|, y requires 0 <= y < |rows| =>
      seq(|rows[y]|, x requires 0 <= x < |rows[y]| => FromLittleEndian(PixelBytes(rows[y][x]))))
  }

  lemma AlphaMask()
    ensures AlphaSpans.Valid() && AlphaSpans.a.Mask() == 0xff00_0000
  {
    ByteMasks();
    DefaultSpanMasks();
    ShiftedZero(0);
    assert ShiftLeft(0xff_0000, 4) == 0xff0_0000;
    assert ShiftLeft(0xff_0000, 8) == 0xff00_0000;
    ShiftLeftJoin(255, 16, 8);
  }

  lemma {:induction false} ShiftLeftJoin(m: nat, a: nat, b: nat)
    ensures ShiftLeft(m, a + b) == ShiftLeft(ShiftLeft(m, a), b)
    decreases b
  {
    if b > 0 {
      ShiftLeftJoin(m, a, b - 1);
    }
  }

  /** The alpha mask picks out the last byte of a pixel. */
  lemma AlphaOf(c: Color)
    ensures AlphaSpans.Of(FromLittleEndian(PixelBytes(c))) == c && FromLittleEndian(PixelBytes(c)) < UINT32_LIMIT
  {
    hide Channel, FromLittleEndian, ShiftRight, Contiguous, Span.Mask, Span.Of;
    var v := FromLittleEndian(PixelBytes(c));
    PixelNumber(c);
    DefaultMasks(c);
    DefaultSpanMasks();
    SpanChannel(AlphaSpans.r, v);
    SpanChannel(AlphaSpans.g, v);
    SpanChannel(AlphaSpans.b, v);
    SpanChannel(AlphaSpans.a, v);
    AlphaByte(v, c);
  }

  lemma AlphaByte(v: nat, c: Color)
    requires v == c.b as nat + 0x100 * (c.g as nat) + 0x1_0000 * (c.r as nat) + 0x100_0000 * (c.a as nat)
    ensures Channel(v, AlphaSpans.a.Mask()) == c.a
  {
    hide Channel, ShiftRight, Contiguous;
    ByteChannel(v, 24);
    ShiftedByBytes(v);
    ShiftJoin(v, 16, 8);
    ShiftedByByte(v / 0x1_0000);
    LastTwoBytes(v, c.r as nat + 0x100 * (c.a as nat), 0x100 * (c.g as nat) + c.b as nat);
    LastByte(v / 0x1_0000, c.a as nat, c.r);
  }

  /** An image stored with its alpha channel shows as it is, unless all of it is transparent. */
  lemma ShowsAlpha(f: Form, img: Image)
    requires f.Valid() && f.bits == 32 && f.size != HEADER && f.rest[..16] == MaskBytes(AlphaSpans)
    requires img.Valid() && f.width == img.width && f.height == img.height
    ensures Shown(f.Bitmap([], WordRows(PixelWords(img.rows))))
            == Some(img.(rows := if Transparent(img.rows) then Opaque(img.rows) else img.rows))
  {
    hide Form.Bitmap, Span.Mask, Spans.Of, FromLittleEndian, MaskBytes, WordRows;
    AlphaMask();
    var words := PixelWords(img.rows);
    forall y: nat, x: nat | y < img.height && x < img.width
      ensures words[y][x] < UINT32_LIMIT && AlphaSpans.Of(words[y][x]) == img.rows[y][x]
    {
      AlphaOf(img.rows[y][x]);
    }
    forall y | 0 <= y < img.height ensures Colors(AlphaSpans, words)[y] == img.rows[y] {
    }
    assert Colors(AlphaSpans, words) == img.rows;
    ShowsMasks(f, AlphaSpans, words);
  }
}
