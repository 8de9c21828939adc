/** `validate_png_bytes` and its helpers (scripts/docs_screenshot_manifest.py). CRC-32 and zlib are parameters. */
module PngValidation {
  import opened PngFormat
  import opened Adam7
  import opened Wrappers

  // ----- the chunk loop -----

  /** The chunks from `cursor` on continue those already read. */
  ghost predicate ReadSoFar(content: Bytes, cursor: nat, read: seq<Chunk>, crc: Crc)
    requires 8 <= cursor <= |content|
  {
    var all, rest := Tiles(content, 8, crc), Tiles(content, cursor, crc);
    (all.Some? <==> rest.Some?) && (rest.Some? ==> all.value == read + rest.value)
  }

  ghost predicate WellTiled(content: Bytes, crc: Crc)
    requires 8 <= |content|
  {
    Tiles(content, 8, crc).Some? && WellFormed(Tiles(content, 8, crc).value)
  }

  lemma ReadStep(content: Bytes, cursor: nat, read: seq<Chunk>, crc: Crc)
    requires 8 <= cursor < |content| && ReadSoFar(content, cursor, read, crc)
    ensures
      var c := ChunkAt(content, cursor, crc);
      if c.None? then !WellTiled(content, crc)
      else ReadSoFar(content, cursor + 12 + |c.value.payload|, read + [c.value], crc)
  {
    hide ChunkAt, WellFormed;
    var c := ChunkAt(content, cursor, crc);
    if c.Some? {
      var rest := Tiles(content, cursor + 12 + |c.value.payload|, crc);
      if rest.Some? {
        assert read + ([c.value] + rest.value) == read + [c.value] + rest.value;
      }
    }
  }

  /** A chunk that does not fit after those read spoils the file, whatever follows. */
  lemma Misfit(content: Bytes, cursor: nat, read: seq<Chunk>, c: Chunk, crc: Crc)
    requires 8 <= cursor <= |content| && ReadSoFar(content, cursor, read + [c], crc)
    requires !Fits(read, c)
    ensures !WellTiled(content, crc)
  {
    if WellTiled(content, crc) {
      var all, rest := Tiles(content, 8, crc).value, Tiles(content, cursor, crc).value;
      assert all == read + [c] + rest;
      assert all[..|read|] == read && all[|read|] == c;
      OrderedFits(all, |read|);
    }
  }

  /** Nothing may follow IEND. */
  lemma EndIsLast(content: Bytes, cursor: nat, read: seq<Chunk>, crc: Crc)
    requires 8 <= cursor <= |content| && ReadSoFar(content, cursor, read, crc)
    requires Ordered(read)
    ensures cursor == |content| ==> (WellTiled(content, crc) <==> |read| > 0 && read[|read| - 1].kind == IEND)
    ensures cursor == |content| ==> Tiles(content, 8, crc) == Some(read)
    ensures cursor < |content| && Has(read, IEND) ==> !WellTiled(content, crc)
  {
    if cursor == |content| {
      assert read + [] == read;
    } else if Has(read, IEND) && WellTiled(content, crc) {
      var all, rest := Tiles(content, 8, crc).value, Tiles(content, cursor, crc).value;
      assert all[..|read|] == read;
      OrderedFits(all, |read|);
    }
  }

  /** The flags of the loop, as facts about the chunks read. */
  datatype Flags = Flags(sawHeader: bool, sawPalette: bool, sawImageData: bool, imageDataClosed: bool, imageData: Bytes)

  ghost predicate Tracks(f: Flags, header: Header, read: seq<Chunk>) {
    && (f.sawHeader <==> read != [])
    && (f.sawHeader ==> StartsWithHeader(read) && header == HeaderOf(read[0].payload))
    && (f.sawPalette <==> Has(read, PLTE))
    && (f.sawImageData <==> Has(read, IDAT))
    && (f.imageDataClosed <==> Has(read, IDAT) && |read| > 0 && read[|read| - 1].kind != IDAT)
    && f.imageData == ImageData(read)
  }

  /** One pass of the loop, after the chunk's length and CRC have been checked. */
  method Admit(before: Flags, headerBefore: Header, c: Chunk, ghost read: seq<Chunk>)
    returns (ok: bool, f: Flags, header: Header)
    requires Encodable(c) && Tracks(before, headerBefore, read) && !Has(read, IEND)
    ensures ok <==> Fits(read, c)
    ensures ok ==> Tracks(f, header, read + [c])
  {
    f, header := before, headerBefore;
    if !Named(c.kind) {
      return false, f, header;
    }
    HasStep(read, c, PLTE);
    HasStep(read, c, IDAT);
    SnocStep(read, c);
    if !f.sawHeader && c.kind != IHDR {
      return false, f, header;
    }
    if c.kind == IHDR {
      if f.sawHeader || !ValidHeader(c.payload) {
        return false, f, header;
      }
      return true, f.(sawHeader := true), HeaderOf(c.payload);
    }
    if c.kind == PLTE {
      if f.sawPalette || f.sawImageData || !PaletteFits(header, |c.payload|) {
        return false, f, header;
      }
      return true, f.(sawPalette := true), header;
    }
    if c.kind == IDAT {
      if f.imageDataClosed || (header.colorType == 3 && !f.sawPalette) {
        return false, f, header;
      }
      if |f.imageData| + |c.payload| > DECODE_LIMIT {
        return false, f, header;
      }
      return true, f.(sawImageData := true, imageData := f.imageData + c.payload), header;
    }
    if f.sawImageData {
      f := f.(imageDataClosed := true);
    }
    if c.kind == IEND {
      return f.sawImageData && c.payload == [], f, header;
    }
    return Bit5(c.kind[0]), f, header;
  }

  method ScanChunks(content: Bytes, crc: Crc) returns (ok: bool, header: Header, imageData: Bytes)
    requires 8 <= |content|
    ensures ok <==> WellTiled(content, crc)
    ensures ok ==>
      var cs := Tiles(content, 8, crc).value;
      StartsWithHeader(cs) && header == HeaderOf(cs[0].payload) && imageData == ImageData(cs)
  {
    hide Fits, ChunkAt, WellTiled, StartsWithHeader;
    var cursor: nat := 8;
    var f := Flags(false, false, false, false, []);
    header := Header(0, 0, 0, 0, 0);
    imageData := [];
    ghost var read: seq<Chunk> := [];
    while cursor < |content|
      invariant 8 <= cursor <= |content|
      invariant ReadSoFar(content, cursor, read, crc)
      invariant Ordered(read) && !Has(read, IEND) && Tracks(f, header, read)
    {
      var next := ChunkAt(content, cursor, crc);
      ReadStep(content, cursor, read, crc);
      if next.None? {
        return false, header, imageData;
      }
      var c := next.value;
      cursor := cursor + 12 + |c.payload|;
      ok, f, header := Admit(f, header, c, read);
      if !ok {
        Misfit(content, cursor, read, c, crc);
        return;
      }
      HasStep(read, c, IEND);
      SnocStep(read, c);
      read := read + [c];
      if c.kind == IEND {
        EndIsLast(content, cursor, read, crc);
        return cursor == |content|, header, f.imageData;
      }
    }
    EndIsLast(content, cursor, read, crc);
    ok := false;
  }

  // ----- the pixels -----

  datatype Layout = Layout(rows: nat, rowBytes: nat)

  /** `_PNG_COLOR_CHANNELS` */
  function Channels(colorType: Byte): nat {
    if colorType == 2 then 3 else if colorType == 4 then 2 else if colorType == 6 then 4 else 1
  }

  function BitsPerPixel(h: Header): nat {
    var depth: nat := h.bitDepth;
    Channels(h.colorType) * depth
  }

  /** The scanlines of the first n passes; a pass without pixels has none (section 2.6). */
  ghost function PassLayouts(h: Header, n: nat): seq<Layout>
    requires n <= 7
  {
    if n == 0 then []
    else
      var p := PASSES[n - 1];
      var width, height := PassSize(h.width, p.startX, p.stepX), PassSize(h.height, p.startY, p.stepY);
      PassLayouts(h, n - 1) + if width > 0 && height > 0 then [Layout(height, (width * BitsPerPixel(h) + 7) / 8)]
        else []
  }

  ghost function LayoutsOf(h: Header): seq<Layout> {
    if h.interlace == 0 then
      var width: nat := h.width;
      [Layout(h.height, (width * BitsPerPixel(h) + 7) / 8)]
    else PassLayouts(h, 7)
  }

  /** `_png_scanline_layouts` */
  method ScanlineLayouts(h: Header) returns (layouts: seq<Layout>)
    ensures layouts == LayoutsOf(h)
  {
    hide PassSize, BitsPerPixel;
    var width: nat := h.width;
    if h.interlace == 0 {
      return [Layout(h.height, (width * BitsPerPixel(h) + 7) / 8)];
    }
    layouts := [];
    for i := 0 to 7
      invariant layouts == PassLayouts(h, i)
    {
      var p := PASSES[i];
      var passWidth := PassSize(h.width, p.startX, p.stepX);
      var passHeight := PassSize(h.height, p.startY, p.stepY);
      if passWidth > 0 && passHeight > 0 {
        layouts := layouts + [Layout(passHeight, (passWidth * BitsPerPixel(h) + 7) / 8)];
      }
    }
  }

  /** The number of filter bytes and sample bytes in the scanlines. */
  function DecodedSize(layouts: seq<Layout>): nat {
    if layouts == [] then 0
    else
      var last := layouts[|layouts| - 1];
      DecodedSize(layouts[..|layouts| - 1]) + last.rows * (last.rowBytes + 1)
  }

  // ----- what the scanlines hold -----

  function Rows(layouts: seq<Layout>): nat {
    if layouts == [] then 0 else Rows(layouts[..|layouts| - 1]) + layouts[|layouts| - 1].rows
  }

  /** How many bits of a scanline may be left over; none when a pixel fills whole bytes. */
  function Padding(bits: nat): nat {
    if bits % 8 == 0 then 0 else 7
  }

  /** Beside their filter bytes, the scanlines have room for the samples of `area` pixels and for the padding. */
  ghost predicate Holds(layouts: seq<Layout>, area: nat, bits: nat) {
    area * bits <= 8 * (DecodedSize(layouts) - Rows(layouts)) <= area * bits + Padding(bits) * Rows(layouts)
  }

  lemma RowHolds(width: nat, height: nat, bits: nat)
    ensures
      var rowBytes := (width * bits + 7) / 8;
      width * height * bits <= 8 * (height * rowBytes) <= width * height * bits + Padding(bits) * height
  {
    var rowBytes := (width * bits + 7) / 8;
    WholeBytes(width, bits);
    Scaled(width * bits, 8 * rowBytes, height);
    Scaled(8 * rowBytes, width * bits + Padding(bits), height);
    assert height * (width * bits) == width * height * bits && height * (8 * rowBytes) == 8 * (height * rowBytes);
  }

  lemma WholeBytes(width: nat, bits: nat)
    ensures width * bits <= 8 * ((width * bits + 7) / 8) <= width * bits + Padding(bits)
  {
    if bits % 8 == 0 {
      assert width * bits == 8 * (width * (bits / 8));
    }
  }

  lemma Scaled(a: nat, b: nat, k: nat)
    requires a <= b
    ensures k * a <= k * b
  {
  }

  /** One more layout holds the pixels of its rows. */
  lemma HoldsMore(layouts: seq<Layout>, area: nat, width: nat, height: nat, bits: nat)
    requires Holds(layouts, area, bits)
    ensures Holds(layouts + [Layout(height, (width * bits + 7) / 8)], area + width * height, bits)
  {
    var rowBytes := (width * bits + 7) / 8;
    var more := layouts + [Layout(height, rowBytes)];
    assert more[..|more| - 1] == layouts;
    RowHolds(width, height, bits);
    assert height * (rowBytes + 1) == height * rowBytes + height;
    assert (area + width * height) * bits == area * bits + width * height * bits;
    assert Padding(bits) * (Rows(layouts) + height) == Padding(bits) * Rows(layouts) + Padding(bits) * height;
  }

  lemma HoldsNothing(bits: nat)
    ensures Holds([], 0, bits)
  {
  }

  ghost function AreaOfPasses(h: Header, n: nat): nat
    requires n <= 7
  {
    if n == 0 then 0 else AreaOfPasses(h, n - 1) + Area(PASSES[n - 1], h.width, h.height)
  }

  lemma {:induction false} PassesHold(h: Header, n: nat)
    requires n <= 7
    ensures Holds(PassLayouts(h, n), AreaOfPasses(h, n), BitsPerPixel(h))
  {
    hide Holds, PassSize, BitsPerPixel;
    if n == 0 {
      HoldsNothing(BitsPerPixel(h));
    } else {
      PassesHold(h, n - 1);
      var p := PASSES[n - 1];
      var width, height := PassSize(h.width, p.startX, p.stepX), PassSize(h.height, p.startY, p.stepY);
      if width > 0 && height > 0 {
        HoldsMore(PassLayouts(h, n - 1), AreaOfPasses(h, n - 1), width, height, BitsPerPixel(h));
      } else {
        assert width * height == 0;
        assert PassLayouts(h, n) == PassLayouts(h, n - 1) + [] == PassLayouts(h, n - 1);
      }
    }
  }

  lemma AllPasses(h: Header)
    ensures AreaOfPasses(h, 7) == h.width * h.height
  {
    hide Area;
    AreasSumToImage(h.width, h.height);
    assert AreaOfPasses(h, 1) == Area(PASSES[0], h.width, h.height);
    assert AreaOfPasses(h, 2) == Area(PASSES[0], h.width, h.height) + Area(PASSES[1], h.width, h.height);
    assert AreaOfPasses(h, 4) == AreaOfPasses(h, 2) + Area(PASSES[2], h.width, h.height) +
      Area(PASSES[3], h.width, h.height);
    assert AreaOfPasses(h, 6) == AreaOfPasses(h, 4) + Area(PASSES[4], h.width, h.height) +
      Area(PASSES[5], h.width, h.height);
  }

  /** Interlaced or not, the scanlines have room for every sample of the image, and beside it only for filter bytes and
    * for the padding of each to whole bytes.
    */
  lemma ScanlinesHoldImage(h: Header)
    ensures Holds(LayoutsOf(h), h.width * h.height, BitsPerPixel(h))
  {
    hide BitsPerPixel, Holds, PassLayouts;
    var bits := BitsPerPixel(h);
    if h.interlace == 0 {
      HoldsNothing(bits);
      HoldsMore([], 0, h.width, h.height, bits);
      assert [] + [Layout(h.height, (h.width * bits + 7) / 8)] == LayoutsOf(h);
    } else {
      PassesHold(h, 7);
      AllPasses(h);
    }
  }

  ghost predicate RowsFine(decoded: Bytes, start: nat, rows: nat, rowBytes: nat)
    requires start + rows * (rowBytes + 1) <= |decoded|
  {
    forall r {:trigger RowStart(start, r, rowBytes)} :: 0 <= r < rows ==>
      RowStart(start, r, rowBytes) < |decoded| && decoded[RowStart(start, r, rowBytes)] <= 4
  }

  ghost function RowStart(start: nat, r: nat, rowBytes: nat): nat {
    start + r * (rowBytes + 1)
  }

  /** Every scanline starts with one of the five filter types. */
  ghost predicate FiltersFine(decoded: Bytes, layouts: seq<Layout>)
    requires DecodedSize(layouts) <= |decoded|
  {
    layouts == [] ||
    var front, last := layouts[..|layouts| - 1], layouts[|layouts| - 1];
    FiltersFine(decoded, front) && RowsFine(decoded, DecodedSize(front), last.rows, last.rowBytes)
  }

  lemma LayoutStep(layouts: seq<Layout>, i: nat)
    requires i < |layouts|
    ensures DecodedSize(layouts[..i + 1]) == DecodedSize(layouts[..i]) + layouts[i].rows * (layouts[i].rowBytes + 1)
    ensures forall decoded: Bytes :: DecodedSize(layouts[..i + 1]) <= |decoded| ==>
      (FiltersFine(decoded, layouts[..i + 1]) <==>
         FiltersFine(decoded, layouts[..i]) && RowsFine(decoded, DecodedSize(layouts[..i]), layouts[i].rows,
           layouts[i].rowBytes))
  {
    hide RowsFine;
    assert layouts[..i + 1][..i] == layouts[..i];
  }

  lemma {:induction false} SizeMonotonic(layouts: seq<Layout>, i: nat)
    requires i <= |layouts|
    ensures DecodedSize(layouts[..i]) <= DecodedSize(layouts)
    decreases |layouts| - i
  {
    if i < |layouts| {
      LayoutStep(layouts, i);
      SizeMonotonic(layouts, i + 1);
    } else {
      assert layouts[..i] == layouts;
    }
  }

  lemma {:induction false} FiltersFineFront(decoded: Bytes, layouts: seq<Layout>, i: nat)
    requires i <= |layouts| && DecodedSize(layouts) <= |decoded| && FiltersFine(decoded, layouts)
    ensures DecodedSize(layouts[..i]) <= |decoded| && FiltersFine(decoded, layouts[..i])
    decreases |layouts| - i
  {
    hide RowsFine;
    SizeMonotonic(layouts, i);
    if i < |layouts| {
      SizeMonotonic(layouts, i + 1);
      FiltersFineFront(decoded, layouts, i + 1);
      LayoutStep(layouts, i);
    } else {
      assert layouts[..i] == layouts;
    }
  }

  /** The filter-byte scan. Its reads stay inside `decoded` and its cursor always ends at the last byte,
    * so the final comparison of the cursor with the length cannot fail.
    */
  method CheckFilters(decoded: Bytes, layouts: seq<Layout>) returns (ok: bool)
    requires |decoded| == DecodedSize(layouts)
    ensures ok <==> FiltersFine(decoded, layouts)
  {
    var cursor := 0;
    for i := 0 to |layouts|
      invariant cursor == DecodedSize(layouts[..i]) <= |decoded|
      invariant FiltersFine(decoded, layouts[..i])
    {
      LayoutStep(layouts, i);
      SizeMonotonic(layouts, i + 1);
      ok, cursor := CheckRows(decoded, cursor, layouts[i]);
      if !ok {
        if FiltersFine(decoded, layouts) {
          FiltersFineFront(decoded, layouts, i + 1);
        }
        return;
      }
    }
    assert layouts[..|layouts|] == layouts;
    assert cursor == |decoded|;
    ok := true;
  }

  method CheckRows(decoded: Bytes, start: nat, layout: Layout) returns (ok: bool, cursor: nat)
    requires start + layout.rows * (layout.rowBytes + 1) <= |decoded|
    ensures ok <==> RowsFine(decoded, start, layout.rows, layout.rowBytes)
    ensures ok ==> cursor == start + layout.rows * (layout.rowBytes + 1)
  {
    cursor := start;
    for r := 0 to layout.rows
      invariant cursor == RowStart(start, r, layout.rowBytes)
      invariant forall q {:trigger RowStart(start, q, layout.rowBytes)} :: 0 <= q < r ==>
        RowStart(start, q, layout.rowBytes) < |decoded| && decoded[RowStart(start, q, layout.rowBytes)] <= 4
    {
      RowInside(r, layout.rows, layout.rowBytes);
      if decoded[cursor] > 4 {
        return false, cursor;
      }
      cursor := cursor + layout.rowBytes + 1;
    }
    ok := true;
  }

  lemma RowInside(r: nat, rows: nat, rowBytes: nat)
    requires r < rows
    ensures r * (rowBytes + 1) + rowBytes + 1 == (r + 1) * (rowBytes + 1) <= rows * (rowBytes + 1)
  {
  }

  // ----- the whole file -----

  /** `zlib.decompressobj`: the outcome of `decompress(data, limit)`, and of `flush(length)` after it. */
  datatype Zlib = Zlib(decompress: (Bytes, nat) -> Decompressed, flush: (Bytes, nat, nat) -> Flushed)

  datatype Decompressed = DecompressError | Decompressed(data: Bytes, unconsumedTail: bool)
  datatype Flushed = FlushError | Flushed(data: Bytes, eof: bool, unusedData: bool, unconsumedTail: bool)

  /** The samples, when the image data is one complete zlib stream of exactly `size` bytes. */
  function Inflate(zlib: Zlib, data: Bytes, size: nat): (decoded: Option<Bytes>)
    ensures decoded.Some? ==> |decoded.value| == size
  {
    var first := zlib.decompress(data, size + 1);
    if first.DecompressError? || first.unconsumedTail || |first.data| > size then None
    else
      var last := zlib.flush(data, size + 1, size + 1 - |first.data|);
      if last.FlushError? || !last.eof || last.unusedData || last.unconsumedTail
         || |first.data| + |last.data| != size
      then None
      else Some(first.data + last.data)
  }

  ghost predicate PixelsDecode(h: Header, imageData: Bytes, zlib: Zlib) {
    var layouts := LayoutsOf(h);
    var decoded := Inflate(zlib, imageData, DecodedSize(layouts));
    && 0 < DecodedSize(layouts) <= DECODE_LIMIT
    && decoded.Some?
    && FiltersFine(decoded.value, layouts)
  }

  /** The chunks form a static PNG: they are in order and their pixels decode. */
  ghost predicate ValidChunks(cs: seq<Chunk>, zlib: Zlib) {
    && AllEncodable(cs) && WellFormed(cs) && StartsWithHeader(cs)
    && PixelsDecode(HeaderOf(cs[0].payload), ImageData(cs), zlib)
  }

  ghost predicate IsPng(content: Bytes, crc: Crc, zlib: Zlib) {
    exists cs :: ValidChunks(cs, zlib) && content == Png(cs, crc)
  }

  /** `validate_png_bytes`; it accepts exactly the encodings of valid chunk lists. */
  method ValidatePngBytes(content: Bytes, crc: Crc, zlib: Zlib) returns (ok: bool)
    ensures ok <==> IsPng(content, crc, zlib)
  {
    hide IsPng, Tiles, WellFormed, PixelsDecode, ImageData;
    if !(SIGNATURE <= content) {
      NotPng(content, crc, zlib);
      return false;
    }
    OneDecoding(content, crc, zlib);
    var header, imageData;
    ok, header, imageData := ScanChunks(content, crc);
    if !ok {
      return;
    }
    ok := DecodePixels(header, imageData, zlib);
  }

  method DecodePixels(header: Header, imageData: Bytes, zlib: Zlib) returns (ok: bool)
    ensures ok <==> PixelsDecode(header, imageData, zlib)
  {
    var layouts := ScanlineLayouts(header);
    var size := DecodedSize(layouts);
    if size <= 0 || size > DECODE_LIMIT {
      return false;
    }
    var decoded := Inflate(zlib, imageData, size);
    if decoded.None? {
      return false;
    }
    ok := CheckFilters(decoded.value, layouts);
  }

  lemma NotPng(content: Bytes, crc: Crc, zlib: Zlib)
    requires !(SIGNATURE <= content)
    ensures !IsPng(content, crc, zlib)
  {
    forall cs | ValidChunks(cs, zlib)
      ensures content != Png(cs, crc)
    {
      assert SIGNATURE <= Png(cs, crc);
    }
  }

  /** After the signature, being a PNG is a question about the one list that the bytes tile into. */
  lemma OneDecoding(content: Bytes, crc: Crc, zlib: Zlib)
    requires SIGNATURE <= content
    ensures IsPng(content, crc, zlib) <==>
      && WellTiled(content, crc)
      && var cs := Tiles(content, 8, crc).value;
         StartsWithHeader(cs) && PixelsDecode(HeaderOf(cs[0].payload), ImageData(cs), zlib)
  {
    hide Tiles, WellFormed, PixelsDecode, ImageData, Png;
    if IsPng(content, crc, zlib) {
      var cs :| ValidChunks(cs, zlib) && content == Png(cs, crc);
      PngIffTiles(content, cs, crc);
    }
    if WellTiled(content, crc) {
      TilesSound(content, 8, crc);
      PngIffTiles(content, Tiles(content, 8, crc).value, crc);
    }
  }
}
