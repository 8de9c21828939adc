/** Which files `validate_png_bytes` (scripts/docs_screenshot_manifest.py:134-260) accepts, said of their bytes: where
  * the chunks begin, what stands in them, and how large the decoded pixels must be (RFC 2083, sections 2.3, 2.6, 3 and
  * 4.1).
  */
module PngMeaning {
  import opened Adam7
  import opened Division
  import opened PngFormat
  import opened PngGrammar
  import opened PngValidation
  import opened Wrappers

  // ----- chunks in a file -----

  function Ascii(s: string): (r: seq<int>)
    ensures |r| == |s|
  {
    seq(|s|, i requires 0 <= i < |s| => s[i] as int)
  }

  /** The number in four bytes, the most significant first (section 2.1). */
  function BigEndian(content: Bytes, at: nat): nat
    requires at + 4 <= |content|
  {
    var a: nat, b: nat, c: nat, d: nat := content[at], content[at + 1], content[at + 2], content[at + 3];
    0x100_0000 * a + 0x1_0000 * b + 0x100 * c + d
  }

  /** Where a chunk begins and where the next one would. */
  datatype Place = Place(from: nat, to: nat)

  /** A chunk stands there: its length, its type, that many bytes, and the CRC of type and bytes. */
  ghost predicate IsChunk(content: Bytes, p: Place, crc: Crc) {
    && p.from + 12 <= p.to <= |content| && p.to == p.from + 12 + BigEndian(content, p.from)
    && BigEndian(content, p.to - 4) == crc(content[p.from + 4..p.to - 4])
  }

  /** From `cursor` on, the file falls into the chunks at these places, one after the other. */
  ghost predicate Cut(content: Bytes, cursor: nat, places: seq<Place>, crc: Crc)
    decreases |places|
  {
    if places == [] then cursor == |content|
    else
      && places[0].from == cursor && IsChunk(content, places[0], crc)
      && Cut(content, places[0].to, places[1..], crc)
  }

  function ChunkIn(content: Bytes, p: Place): Chunk {
    if p.from + 12 <= p.to <= |content| then Chunk(content[p.from + 4..p.from + 8], content[p.from + 8..p.to - 4])
    else Chunk([], [])
  }

  function ChunksIn(content: Bytes, places: seq<Place>): (cs: seq<Chunk>)
    ensures |cs| == |places| && forall i :: 0 <= i < |cs| ==> cs[i] == ChunkIn(content, places[i])
  {
    seq(|places|, i requires 0 <= i < |places| => ChunkIn(content, places[i]))
  }

  lemma Unpacked(content: Bytes, at: nat)
    requires at + 4 <= |content|
    ensures Unpack32(content[at..at + 4]) == BigEndian(content, at)
  {
  }

  lemma ChunkAtIff(content: Bytes, from: nat, crc: Crc)
    requires from <= |content|
    ensures
      var c := ChunkAt(content, from, crc);
      && (c.Some? ==>
            var p := Place(from, from + 12 + |c.value.payload|);
            IsChunk(content, p, crc) && c.value == ChunkIn(content, p))
      && (forall p: Place :: p.from == from && IsChunk(content, p, crc) ==>
        c.Some? && p.to == from + 12 + |c.value.payload|)
  {
    if from + 12 <= |content| {
      var length := BigEndian(content, from);
      var to := from + 12 + length;
      Unpacked(content, from);
      if to <= |content| {
        Unpacked(content, to - 4);
        assert content[from + 4..from + 8] + content[from + 8..to - 4] == content[from + 4..to - 4];
      }
    }
  }

  lemma {:induction false} TilesAreCut(content: Bytes, cursor: nat, crc: Crc) returns (places: seq<Place>)
    requires cursor <= |content| && Tiles(content, cursor, crc).Some?
    ensures Cut(content, cursor, places, crc) && ChunksIn(content, places) == Tiles(content, cursor, crc).value
    decreases |content| - cursor
  {
    hide ChunkAt, IsChunk, ChunkIn;
    if cursor == |content| {
      places := [];
    } else {
      var c := ChunkAt(content, cursor, crc).value;
      ChunkAtIff(content, cursor, crc);
      var p := Place(cursor, cursor + 12 + |c.payload|);
      var rest := TilesAreCut(content, p.to, crc);
      places := [p] + rest;
      assert places[1..] == rest;
      assert ChunksIn(content, places) == [ChunkIn(content, p)] + ChunksIn(content, rest);
    }
  }

  lemma {:induction false} CutTiles(content: Bytes, cursor: nat, places: seq<Place>, crc: Crc)
    requires cursor <= |content| && Cut(content, cursor, places, crc)
    ensures Tiles(content, cursor, crc) == Some(ChunksIn(content, places))
    decreases |places|
  {
    hide ChunkAt, ChunkIn;
    if places != [] {
      ChunkAtIff(content, cursor, crc);
      CutTiles(content, places[0].to, places[1..], crc);
      assert ChunksIn(content, places) == [ChunkIn(content, places[0])] + ChunksIn(content, places[1..]);
    }
  }

  ghost predicate Signed(content: Bytes) {
    |content| >= 8 && content[..8] == [0x89] + Ascii("PNG") + [13, 10, 26, 10]
  }

  /** A file is the encoding of a list of chunks exactly when, after the signature, it is cut into them. */
  lemma EncodesIff(content: Bytes, cs: seq<Chunk>, crc: Crc)
    ensures AllEncodable(cs) && content == Png(cs, crc) <==>
      Signed(content) && exists places :: Cut(content, 8, places, crc) && ChunksIn(content, places) == cs
  {
    hide Tiles;
    assert [0x89] + Ascii("PNG") + [13, 10, 26, 10] == SIGNATURE;
    assert Signed(content) <==> SIGNATURE <= content;
    if AllEncodable(cs) && content == Png(cs, crc) {
      PngIffTiles(content, cs, crc);
      var places := TilesAreCut(content, 8, crc);
    }
    if Signed(content) && exists places :: Cut(content, 8, places, crc) && ChunksIn(content, places) == cs {
      var places :| Cut(content, 8, places, crc) && ChunksIn(content, places) == cs;
      CutTiles(content, 8, places, crc);
      TilesSound(content, 8, crc);
      PngIffTiles(content, cs, crc);
    }
  }

  // ----- the grammar -----

  /** The chunk of that place has this type. */
  ghost predicate Kind(content: Bytes, p: Place, name: string) {
    p.from + 8 <= |content| && content[p.from + 4..p.from + 8] == Ascii(name)
  }

  ghost predicate Upper(b: int) { 'A' as int <= b <= 'Z' as int }

  ghost predicate Lower(b: int) { 'a' as int <= b <= 'z' as int }

  /** Four letters, the third a capital; and the first only if the chunk is one of the four that must be understood. */
  ghost predicate KindFine(content: Bytes, p: Place) {
    && p.from + 8 <= |content|
    && (forall i :: p.from + 4 <= i < p.from + 8 ==> Upper(content[i]) || Lower(content[i]))
    && Upper(content[p.from + 6])
    && (Upper(content[p.from + 4]) ==>
          Kind(content, p, "IHDR") || Kind(content, p, "PLTE") || Kind(content, p, "IDAT") || Kind(content, p, "IEND"))
  }

  /** Size, depth and colour type, method bytes and interlacing, in the header's 13 bytes at 16 (section 4.1.1). */
  ghost predicate HeaderFine(content: Bytes) {
    && |content| >= 33 && BigEndian(content, 8) == 13
    && BigEndian(content, 16) > 0 && BigEndian(content, 20) > 0
    && content[24] in {1, 2, 4, 8, 16} && content[25] in {0, 2, 3, 4, 6}
    && (content[25] == 3 ==> content[24] != 16) && (content[25] in {2, 4, 6} ==> content[24] >= 8)
    && content[26] == 0 && content[27] == 0 && content[28] <= 1
  }

  /** The palette of an image of that colour type and depth: 1 to 256 colours of three bytes, as many as can be
    * addressed.
    */
  ghost predicate PaletteFine(colorType: int, depth: int, length: int) {
    && colorType != 0 && colorType != 4
    && exists entries :: 1 <= entries <= 256 && length == 3 * entries
         && (colorType == 3 ==> entries <= (if depth == 1 then 2 else if depth == 2 then 4 else if depth == 4 then 16
           else 256))
  }

  /** The contents of the image data chunks, put together. */
  ghost function PixelBytes(content: Bytes, places: seq<Place>): Bytes {
    if places == [] then []
    else
      var n := |places| - 1;
      PixelBytes(content, places[..n])
      + (if Kind(content, places[n], "IDAT") then ChunkIn(content, places[n]).payload else [])
  }

  ghost predicate IsKind(content: Bytes, places: seq<Place>, i: int, name: string) {
    0 <= i < |places| && Kind(content, places[i], name)
  }

  /** The header first and only first, the end last and only last and empty. */
  ghost predicate EndsFine(content: Bytes, places: seq<Place>) {
    && places != []
    && (forall i :: 0 <= i < |places| ==>
          && KindFine(content, places[i])
          && (IsKind(content, places, i, "IHDR") <==> i == 0)
          && (IsKind(content, places, i, "IEND") <==> i == |places| - 1))
    && places[|places| - 1].to == places[|places| - 1].from + 12
  }

  /** One unbroken run of image data, within the limit. */
  ghost predicate PixelsTogether(content: Bytes, places: seq<Place>) {
    && (exists i :: IsKind(content, places, i, "IDAT"))
    && (forall i, j, k :: i <= j <= k && IsKind(content, places, i, "IDAT") && IsKind(content, places, k, "IDAT") ==>
          IsKind(content, places, j, "IDAT"))
    && |PixelBytes(content, places)| <= 0x1000_0000
  }

  /** At most one palette, before the image data; a fitting one; and one when colours are looked up in it. */
  ghost predicate PalettesFine(content: Bytes, places: seq<Place>)
    requires |content| >= 33
  {
    && (forall i, j :: i < j && IsKind(content, places, j, "PLTE") ==>
          !IsKind(content, places, i, "PLTE") && !IsKind(content, places, i, "IDAT"))
    && (forall i :: IsKind(content, places, i, "PLTE") ==>
          PaletteFine(content[25], content[24], places[i].to - places[i].from - 12))
    && (content[25] == 3 ==> exists i :: IsKind(content, places, i, "PLTE"))
  }

  // ----- it is the grammar of the chunks -----

  lemma NamesAre()
    ensures IHDR == Ascii("IHDR") && PLTE == Ascii("PLTE") && IDAT == Ascii("IDAT") && IEND == Ascii("IEND")
  {
  }

  ghost predicate AllInside(content: Bytes, places: seq<Place>) {
    forall i :: 0 <= i < |places| ==> places[i].from + 12 <= places[i].to <= |content|
  }

  lemma {:induction false} CutInside(content: Bytes, cursor: nat, places: seq<Place>, crc: Crc)
    requires Cut(content, cursor, places, crc)
    ensures AllInside(content, places)
    decreases |places|
  {
    hide IsChunk;
    if places != [] {
      assert IsChunk(content, places[0], crc);
      CutInside(content, places[0].to, places[1..], crc);
      ChunkInside(content, places[0], crc);
      forall i | 0 < i < |places| ensures places[i].from + 12 <= places[i].to <= |content| {
        assert places[i] == places[1..][i - 1];
      }
    }
  }

  lemma ChunkInside(content: Bytes, p: Place, crc: Crc)
    requires IsChunk(content, p, crc)
    ensures p.from + 12 <= p.to <= |content|
  {
  }

  lemma LettersAre(b: Byte)
    ensures Letter(b) <==> Upper(b) || Lower(b)
    ensures Letter(b) ==> (Bit5(b) <==> Lower(b)) && (!Bit5(b) <==> Upper(b))
  {
  }

  lemma KindFineIff(content: Bytes, p: Place)
    requires p.from + 12 <= p.to <= |content|
    ensures
      var kind := ChunkIn(content, p).kind;
      KindFine(content, p) <==> Named(kind) && (kind !in {IHDR, PLTE, IDAT, IEND} ==> Bit5(kind[0]))
  {
    NamesAre();
    hide IHDR, PLTE, IDAT, IEND, Bit5, Letter, Ascii;
    var kind := ChunkIn(content, p).kind;
    forall i | 0 <= i < 4 ensures kind[i] == content[p.from + 4 + i] {
    }
    forall b: Byte {
      LettersAre(b);
    }
    hide Upper, Lower;
    assert forall i :: p.from + 4 <= i < p.from + 8 ==> content[i] == kind[i - p.from - 4];
    if Named(kind) {
      assert Letter(kind[2]) && Letter(kind[0]);
    }
    if KindFine(content, p) {
      assert forall i :: 0 <= i < 4 ==> Letter(kind[i]);
    }
  }

  lemma HeaderFineIff(content: Bytes, p: Place)
    requires p.from == 8 && p.from + 12 <= p.to <= |content| && p.to == 20 + BigEndian(content, 8)
    ensures HeaderFine(content) <==> ValidHeader(ChunkIn(content, p).payload)
    ensures HeaderFine(content) ==>
      var h := HeaderOf(ChunkIn(content, p).payload);
      && h.width == BigEndian(content, 16) && h.height == BigEndian(content, 20) && h.bitDepth == content[24]
      && h.colorType == content[25] && h.interlace == content[28]
  {
    var payload := ChunkIn(content, p).payload;
    if |payload| == 13 {
      Unpacked(content, 16);
      Unpacked(content, 20);
      assert payload[..4] == content[16..20] && payload[4..8] == content[20..24];
      assert forall i :: 8 <= i < 13 ==> payload[i] == content[16 + i];
      hide Unpack32, BigEndian;
    }
  }

  lemma PaletteFineIff(h: Header, length: nat)
    requires DepthAllowed(h.colorType, h.bitDepth)
    ensures PaletteFine(h.colorType, h.bitDepth, length) <==> PaletteFits(h, length)
  {
    Powers();
    if PaletteFits(h, length) {
      assert length == 3 * (length / 3);
    }
  }

  lemma Powers()
    ensures Power2(1) == 2 && Power2(2) == 4 && Power2(4) == 16 && Power2(8) == 256
  {
    assert Power2(3) == 8 && Power2(5) == 32 && Power2(6) == 64 && Power2(7) == 128;
  }

  lemma {:induction false} PixelBytesAre(content: Bytes, places: seq<Place>)
    requires AllInside(content, places)
    ensures PixelBytes(content, places) == ImageData(ChunksIn(content, places))
    decreases |places|
  {
    NamesAre();
    hide IDAT, Ascii, ChunkIn;
    if places != [] {
      var n := |places| - 1;
      PixelBytesAre(content, places[..n]);
      assert ChunksIn(content, places)[..n] == ChunksIn(content, places[..n]);
      KindIs(content, places[n], "IDAT");
    }
  }

  lemma KindIs(content: Bytes, p: Place, name: string)
    requires p.from + 12 <= p.to <= |content|
    ensures Kind(content, p, name) <==> ChunkIn(content, p).kind == Ascii(name)
  {
    hide Ascii;
  }

  ghost predicate GrammarFine(content: Bytes, places: seq<Place>) {
    && HeaderFine(content) && EndsFine(content, places) && PixelsTogether(content, places)
    && PalettesFine(content, places)
  }

  /** The name in the file is the type of the chunk. */
  ghost predicate SameKind(content: Bytes, places: seq<Place>, cs: seq<Chunk>, name: string, kind: Bytes) {
    forall i :: IsKind(content, places, i, name) <==> 0 <= i && Is(cs, i, kind)
  }

  lemma KindsAreSame(content: Bytes, places: seq<Place>, name: string, kind: Bytes)
    requires AllInside(content, places) && kind == Ascii(name)
    ensures SameKind(content, places, ChunksIn(content, places), name, kind)
  {
    hide Ascii, Kind;
    forall i | 0 <= i < |places| ensures Kind(content, places[i], name) <==> Is(ChunksIn(content, places), i, kind) {
      KindIs(content, places[i], name);
    }
  }

  lemma EndsFineIff(content: Bytes, places: seq<Place>, cs: seq<Chunk>)
    requires AllInside(content, places) && cs == ChunksIn(content, places)
    requires SameKind(content, places, cs, "IHDR", IHDR) && SameKind(content, places, cs, "IEND", IEND)
    ensures EndsFine(content, places) <==> |cs| > 0 && KindsFine(cs) && cs[|cs| - 1].payload == []
  {
    hide Kind, KindFine, Named, Bit5, IHDR, PLTE, IDAT, IEND, IsKind;
    forall i | 0 <= i < |cs|
      ensures KindFine(content, places[i]) <==>
        Named(cs[i].kind) && (cs[i].kind !in {IHDR, PLTE, IDAT, IEND} ==> Bit5(cs[i].kind[0]))
    {
      KindFineIff(content, places[i]);
    }
    forall i | 0 <= i < |cs|
      ensures IsKind(content, places, i, "IHDR") <==> cs[i].kind == IHDR
      ensures IsKind(content, places, i, "IEND") <==> cs[i].kind == IEND
    {
      assert Is(cs, i, IHDR) <==> cs[i].kind == IHDR;
      assert Is(cs, i, IEND) <==> cs[i].kind == IEND;
    }
  }

  lemma PixelsTogetherIff(content: Bytes, places: seq<Place>, cs: seq<Chunk>)
    requires AllInside(content, places) && cs == ChunksIn(content, places)
    requires SameKind(content, places, cs, "IDAT", IDAT)
    ensures PixelsTogether(content, places) <==> Has(cs, IDAT) && Unbroken(cs) && |ImageData(cs)| <= DECODE_LIMIT
  {
    PixelBytesAre(content, places);
    HasAt(cs, |cs|, IDAT);
    hide IsKind, Is, PixelBytes, ImageData, IDAT;
    assert cs[..|cs|] == cs;
    assert forall i :: IsKind(content, places, i, "IDAT") ==> 0 <= i;
  }

  lemma KindInRange(content: Bytes, places: seq<Place>, name: string)
    ensures forall i :: IsKind(content, places, i, name) ==> 0 <= i < |places|
  {
  }

  lemma NotBoth(cs: seq<Chunk>, i: nat)
    ensures !(Is(cs, i, PLTE) && Is(cs, i, IDAT))
  {
    assert PLTE[0] != IDAT[0];
  }

  lemma PalettesFineIff(content: Bytes, places: seq<Place>, cs: seq<Chunk>, h: Header)
    requires AllInside(content, places) && cs == ChunksIn(content, places) && |content| >= 33
    requires SameKind(content, places, cs, "IDAT", IDAT) && SameKind(content, places, cs, "PLTE", PLTE)
    requires h.colorType == content[25] && h.bitDepth == content[24] && DepthAllowed(h.colorType, h.bitDepth)
    requires Has(cs, IDAT)
    ensures PalettesFine(content, places) <==> PaletteFirst(cs) && PaletteIfNeeded(cs, h)
  {
    hide Kind, PaletteFine, PaletteFits, IDAT, PLTE, IsKind, Is;
    KindInRange(content, places, "PLTE");
    KindInRange(content, places, "IDAT");
    forall i | 0 <= i < |cs|
      ensures |cs[i].payload| == places[i].to - places[i].from - 12
      ensures PaletteFine(content[25], content[24], places[i].to - places[i].from - 12) <==>
        PaletteFits(h, |cs[i].payload|)
      ensures !(Is(cs, i, PLTE) && Is(cs, i, IDAT))
    {
      PaletteFineIff(h, |cs[i].payload|);
      NotBoth(cs, i);
    }
    HasAt(cs, |cs|, IDAT);
    assert cs[..|cs|] == cs;
  }

  /** For a file that is cut into chunks, these are the rules by position. */
  lemma GrammarIff(content: Bytes, places: seq<Place>, crc: Crc)
    requires Cut(content, 8, places, crc)
    ensures GrammarFine(content, places) <==> ByPosition(ChunksIn(content, places))
    ensures GrammarFine(content, places) ==>
      var h := HeaderOf(ChunksIn(content, places)[0].payload);
      && h.width == BigEndian(content, 16) && h.height == BigEndian(content, 20) && h.bitDepth == content[24]
      && h.colorType == content[25] && h.interlace == content[28]
  {
    hide Kind, KindFine, HeaderFine, PalettesFine, EndsFine, PixelsTogether, PaletteFirst, PaletteIfNeeded, KindsFine,
      Unbroken, Has, HeaderOf, ValidHeader, BigEndian, ImageData, SameKind, IHDR, PLTE, IDAT, IEND, Ascii;
    var cs := ChunksIn(content, places);
    CutInside(content, 8, places, crc);
    NamesAre();
    KindsAreSame(content, places, "IHDR", IHDR);
    KindsAreSame(content, places, "PLTE", PLTE);
    KindsAreSame(content, places, "IDAT", IDAT);
    KindsAreSame(content, places, "IEND", IEND);
    EndsFineIff(content, places, cs);
    PixelsTogetherIff(content, places, cs);
    if places != [] {
      HeaderFineIff(content, places[0]);
      if ValidHeader(cs[0].payload) && Has(cs, IDAT) {
        HeaderDepth(cs[0].payload);
        PalettesFineIff(content, places, cs, HeaderOf(cs[0].payload));
      }
    }
  }

  lemma HeaderDepth(p: Bytes)
    requires ValidHeader(p)
    ensures |p| == 13 && DepthAllowed(HeaderOf(p).colorType, HeaderOf(p).bitDepth)
  {
  }

  // ----- the pixels -----

  /** Samples per pixel by the bits of the colour type: palette used, colour used, alpha channel used (section 4.1.1).
    */
  function Samples(colorType: nat): nat {
    if colorType % 2 == 1 then 1
    else (if colorType / 2 % 2 == 1 then 3 else 1) + (if colorType / 4 % 2 == 1 then 1 else 0)
  }

  /** In which pass a pixel is sent, by the remainders of its row and column (section 2.6). */
  const ADAM7: seq<seq<int>> := [
    [1, 6, 4, 6, 2, 6, 4, 6],
    [7, 7, 7, 7, 7, 7, 7, 7],
    [5, 6, 5, 6, 5, 6, 5, 6],
    [7, 7, 7, 7, 7, 7, 7, 7],
    [3, 6, 4, 6, 3, 6, 4, 6],
    [7, 7, 7, 7, 7, 7, 7, 7],
    [5, 6, 5, 6, 5, 6, 5, 6],
    [7, 7, 7, 7, 7, 7, 7, 7]
  ]

  /** The columns of an image that have a pixel in this pass, if its height allows, and the rows likewise. */
  ghost function Columns(width: nat, pass: int): set<nat> {
    set x: nat | x < width && exists y :: 0 <= y < 8 && ADAM7[y][x % 8] == pass
  }

  ghost function RowsOf(height: nat, pass: int): set<nat> {
    set y: nat | y < height && exists x :: 0 <= x < 8 && ADAM7[y % 8][x] == pass
  }

  lemma PassColumn(k: nat, x: nat)
    requires k < 7
    ensures OnGrid(x, PASSES[k].startX, PASSES[k].stepX) <==> exists y :: 0 <= y < 8 && ADAM7[y][x % 8] == k + 1
  {
    Remainders(x);
    hide OnGrid;
    var a := x % 8;
    assert a in {0, 1, 2, 3, 4, 5, 6, 7} && k in {0, 1, 2, 3, 4, 5, 6};
    assert ADAM7[0][a] == k + 1 || ADAM7[1][a] == k + 1 || ADAM7[2][a] == k + 1 || ADAM7[4][a] == k + 1
      <==> exists y :: 0 <= y < 8 && ADAM7[y][a] == k + 1;
  }

  lemma PassRow(k: nat, y: nat)
    requires k < 7
    ensures OnGrid(y, PASSES[k].startY, PASSES[k].stepY) <==> exists x :: 0 <= x < 8 && ADAM7[y % 8][x] == k + 1
  {
    Remainders(y);
    hide OnGrid;
    var b := y % 8;
    assert b in {0, 1, 2, 3, 4, 5, 6, 7} && k in {0, 1, 2, 3, 4, 5, 6};
    assert ADAM7[b][0] == k + 1 || ADAM7[b][1] == k + 1 || ADAM7[b][2] == k + 1 || ADAM7[b][4] == k + 1
      <==> exists x :: 0 <= x < 8 && ADAM7[b][x] == k + 1;
  }

  /** The passes of `_ADAM7_PASSES` visit the pixels that the standard's pattern gives them. */
  lemma PassIs(k: nat, x: nat, y: nat)
    requires k < 7
    ensures InPass(PASSES[k], x, y) <==> ADAM7[y % 8][x % 8] == k + 1
  {
    Remainders(x);
    Remainders(y);
    hide OnGrid;
    var a, b := x % 8, y % 8;
    assert a in {0, 1, 2, 3, 4, 5, 6, 7} && b in {0, 1, 2, 3, 4, 5, 6, 7};
    assert k in {0, 1, 2, 3, 4, 5, 6};
  }

  lemma PassCounts(k: nat, width: nat, height: nat)
    requires k < 7
    ensures |Columns(width, k + 1)| == PassSize(width, PASSES[k].startX, PASSES[k].stepX)
    ensures |RowsOf(height, k + 1)| == PassSize(height, PASSES[k].startY, PASSES[k].stepY)
  {
    hide OnGrid, PassSize, ADAM7;
    var p := PASSES[k];
    PassSizeCounts(width, p.startX, p.stepX);
    PassSizeCounts(height, p.startY, p.stepY);
    forall x: nat ensures x in Columns(width, k + 1) <==> x in Visited(width, p.startX, p.stepX) {
      PassColumn(k, x);
    }
    forall y: nat ensures y in RowsOf(height, k + 1) <==> y in Visited(height, p.startY, p.stepY) {
      PassRow(k, y);
    }
    assert Columns(width, k + 1) == Visited(width, p.startX, p.stepX);
    assert RowsOf(height, k + 1) == Visited(height, p.startY, p.stepY);
  }

  /** A scanline of that many pixels, in whole bytes. */
  function LineBytes(pixels: nat, bits: nat): nat {
    pixels * bits / 8 + if pixels * bits % 8 == 0 then 0 else 1
  }

  /** The scanlines of one pass. */
  ghost function PassLines(width: nat, height: nat, bits: nat, pass: int): seq<Layout> {
    var columns, rows := Columns(width, pass), RowsOf(height, pass);
    if columns == {} || rows == {} then [] else [Layout(|rows|, LineBytes(|columns|, bits))]
  }

  /** The scanlines of the first n passes, one pass after the other. */
  ghost function LinesUpTo(width: nat, height: nat, bits: nat, n: nat): seq<Layout> {
    if n == 0 then [] else LinesUpTo(width, height, bits, n - 1) + PassLines(width, height, bits, n)
  }

  /** The scanlines of an image, interlaced or not. */
  ghost function Lines(width: nat, height: nat, bits: nat, interlace: int): seq<Layout> {
    if interlace == 0 then [Layout(height, LineBytes(width, bits))] else LinesUpTo(width, height, bits, 7)
  }

  /** The bytes that they take, each with its filter byte. */
  function Total(lines: seq<Layout>): nat {
    if lines == [] then 0 else (1 + lines[0].rowBytes) * lines[0].rows + Total(lines[1..])
  }

  /** The r-th of the scanlines that begin at `start` begins with one of the five filter types. */
  ghost predicate FilterAt(decoded: Bytes, start: nat, r: int, line: Layout) {
    var at := start + r * (1 + line.rowBytes);
    0 <= at < |decoded| && decoded[at] in {0, 1, 2, 3, 4}
  }

  ghost predicate FiltersThere(decoded: Bytes, lines: seq<Layout>) {
    forall i, r {:trigger FilterAt(decoded, Total(lines[..i]), r, lines[i])} ::
      0 <= i < |lines| && 0 <= r < lines[i].rows ==> FilterAt(decoded, Total(lines[..i]), r, lines[i])
  }

  /** The data decompresses to a and then b: `size` bytes in all, the end of the stream, and nothing left over. */
  ghost predicate Inflates(zlib: Zlib, data: Bytes, size: nat, a: Bytes, b: Bytes) {
    && zlib.decompress(data, size + 1) == Decompressed(a, false) && |a| <= size
    && zlib.flush(data, size + 1, size + 1 - |a|) == Flushed(b, true, false, false)
    && |a| + |b| == size
  }

  /** The pixels decompress as a whole, with nothing left over, to the scanlines of the image. */
  ghost predicate PixelsFine(content: Bytes, pixels: Bytes, zlib: Zlib)
    requires |content| >= 33
  {
    var lines := Lines(BigEndian(content, 16), BigEndian(content, 20), Samples(content[25]) * content[24], content[28]);
    var size := Total(lines);
    && 1 <= size <= 0x1000_0000
    && exists a, b :: Inflates(zlib, pixels, size, a, b) && FiltersThere(a + b, lines)
  }

  lemma LineBytesAre(pixels: nat, bits: nat)
    ensures LineBytes(pixels, bits) == (pixels * bits + 7) / 8
  {
  }

  lemma ChannelsAre(colorType: Byte)
    requires colorType in {0, 2, 3, 4, 6}
    ensures Channels(colorType) == Samples(colorType)
  {
  }

  lemma {:induction false} PassLayoutsAre(h: Header, n: nat)
    requires n <= 7
    ensures PassLayouts(h, n) == LinesUpTo(h.width, h.height, BitsPerPixel(h), n)
    decreases n
  {
    hide PassSize, Columns, RowsOf, BitsPerPixel, LineBytes;
    if n > 0 {
      PassLayoutsAre(h, n - 1);
      PassCounts(n - 1, h.width, h.height);
      LineBytesAre(|Columns(h.width, n)|, BitsPerPixel(h));
      NoneLeft(Columns(h.width, n));
      NoneLeft(RowsOf(h.height, n));
    }
  }

  lemma NoneLeft(s: set<nat>)
    ensures s == {} <==> |s| == 0
  {
  }

  lemma LayoutsAre(h: Header)
    ensures LayoutsOf(h) == Lines(h.width, h.height, BitsPerPixel(h), h.interlace)
  {
    hide BitsPerPixel, PassLayouts, LinesUpTo, LineBytes;
    PassLayoutsAre(h, 7);
    LineBytesAre(h.width, BitsPerPixel(h));
  }

  lemma {:induction false} TotalSnoc(lines: seq<Layout>, last: Layout)
    ensures Total(lines + [last]) == Total(lines) + last.rows * (last.rowBytes + 1)
    decreases |lines|
  {
    if lines != [] {
      assert (lines + [last])[1..] == lines[1..] + [last];
      TotalSnoc(lines[1..], last);
    } else {
      assert [last][1..] == [];
    }
  }

  lemma {:induction false} TotalIs(lines: seq<Layout>)
    ensures Total(lines) == DecodedSize(lines)
    decreases |lines|
  {
    if lines != [] {
      var n := |lines| - 1;
      TotalIs(lines[..n]);
      TotalSnoc(lines[..n], lines[n]);
      assert lines[..n] + [lines[n]] == lines;
    }
  }

  lemma RowsFineIff(decoded: Bytes, start: nat, line: Layout)
    requires start + line.rows * (line.rowBytes + 1) <= |decoded|
    ensures RowsFine(decoded, start, line.rows, line.rowBytes) <==>
      forall r {:trigger FilterAt(decoded, start, r, line)} :: 0 <= r < line.rows ==> FilterAt(decoded, start, r, line)
  {
    forall r: nat | r < line.rows
      ensures FilterAt(decoded, start, r, line) <==>
        RowStart(start, r, line.rowBytes) < |decoded| && decoded[RowStart(start, r, line.rowBytes)] <= 4
    {
    }
  }

  lemma {:induction false} FiltersIff(decoded: Bytes, lines: seq<Layout>)
    requires DecodedSize(lines) <= |decoded|
    ensures FiltersFine(decoded, lines) <==> FiltersThere(decoded, lines)
    decreases |lines|
  {
    hide FilterAt, RowsFine;
    if lines != [] {
      var n := |lines| - 1;
      var front := lines[..n];
      FiltersIff(decoded, front);
      TotalIs(front);
      RowsFineIff(decoded, DecodedSize(front), lines[n]);
      forall i | 0 <= i < n ensures front[i] == lines[i] && front[..i] == lines[..i] {
      }
      if FiltersThere(decoded, lines) {
        forall i, r | 0 <= i < n && 0 <= r < front[i].rows ensures FilterAt(decoded, Total(front[..i]), r, front[i]) {
          assert FilterAt(decoded, Total(lines[..i]), r, lines[i]);
        }
        forall r | 0 <= r < lines[n].rows ensures FilterAt(decoded, DecodedSize(front), r, lines[n]) {
          assert FilterAt(decoded, Total(lines[..n]), r, lines[n]);
        }
      }
      if FiltersFine(decoded, lines) {
        forall i, r | 0 <= i < |lines| && 0 <= r < lines[i].rows
          ensures FilterAt(decoded, Total(lines[..i]), r, lines[i])
        {
          if i < n {
            assert FilterAt(decoded, Total(front[..i]), r, front[i]);
          } else {
            assert FilterAt(decoded, DecodedSize(front), r, lines[n]);
          }
        }
      }
    }
  }

  lemma InflateIff(zlib: Zlib, data: Bytes, size: nat, decoded: Bytes)
    ensures Inflate(zlib, data, size) == Some(decoded) <==>
      exists a, b :: Inflates(zlib, data, size, a, b) && decoded == a + b
  {
  }

  lemma PixelsFineIff(content: Bytes, h: Header, pixels: Bytes, zlib: Zlib)
    requires |content| >= 33 && h.colorType in {0, 2, 3, 4, 6}
    requires h.width == BigEndian(content, 16) && h.height == BigEndian(content, 20) && h.bitDepth == content[24]
      && h.colorType == content[25] && h.interlace == content[28]
    ensures PixelsDecode(h, pixels, zlib) <==> PixelsFine(content, pixels, zlib)
  {
    hide BigEndian, Lines, LayoutsOf, Channels, Samples, FiltersFine, FiltersThere, Total, DecodedSize, Inflate,
      Inflates;
    var lines := LayoutsOf(h);
    ChannelsAre(h.colorType);
    LayoutsAre(h);
    TotalIs(lines);
    var size := Total(lines);
    var decoded := Inflate(zlib, pixels, size);
    if PixelsDecode(h, pixels, zlib) {
      InflateIff(zlib, pixels, size, decoded.value);
      FiltersIff(decoded.value, lines);
    }
    if PixelsFine(content, pixels, zlib) {
      var a, b :| Inflates(zlib, pixels, size, a, b) && FiltersThere(a + b, lines);
      InflateIff(zlib, pixels, size, a + b);
      FiltersIff(a + b, lines);
    }
  }

  // ----- the file -----

  /** A static PNG file that the script takes: signed, cut into chunks, in order, with pixels of the right size. */
  ghost predicate IsPngFile(content: Bytes, crc: Crc, zlib: Zlib) {
    && Signed(content)
    && exists places ::
         && Cut(content, 8, places, crc) && GrammarFine(content, places)
         && PixelsFine(content, PixelBytes(content, places), zlib)
  }

  lemma ChunksAreFile(content: Bytes, places: seq<Place>, crc: Crc, zlib: Zlib)
    requires Signed(content) && Cut(content, 8, places, crc)
    ensures ValidChunks(ChunksIn(content, places), zlib) <==>
      GrammarFine(content, places) && PixelsFine(content, PixelBytes(content, places), zlib)
  {
    hide Signed, Cut, GrammarFine, PixelsFine, PixelBytes, ImageData, PixelsDecode, ByPosition, WellFormed, HeaderOf,
      ChunksIn, BigEndian, Png, AllEncodable;
    var cs := ChunksIn(content, places);
    EncodesIff(content, cs, crc);
    GrammarIff(content, places, crc);
    WellFormedIffByPosition(cs);
    CutInside(content, 8, places, crc);
    PixelBytesAre(content, places);
    if GrammarFine(content, places) {
      FromGrammar(content, places, cs);
      PixelsFineIff(content, HeaderOf(cs[0].payload), ImageData(cs), zlib);
    }
  }

  lemma FromGrammar(content: Bytes, places: seq<Place>, cs: seq<Chunk>)
    requires GrammarFine(content, places) && ByPosition(cs)
    ensures |content| >= 33 && content[25] in {0, 2, 3, 4, 6} && StartsWithHeader(cs)
  {
  }

  /** The accepted files. */
  lemma PngIff(content: Bytes, crc: Crc, zlib: Zlib)
    ensures IsPng(content, crc, zlib) <==> IsPngFile(content, crc, zlib)
  {
    hide Signed, Cut, EndsFine, PixelsTogether, PalettesFine, BigEndian, PixelsFine, PixelBytes, WellFormed,
      PixelsDecode,
      StartsWithHeader, HeaderOf, Png, ChunksIn;
    if IsPng(content, crc, zlib) {
      var cs :| ValidChunks(cs, zlib) && content == Png(cs, crc);
      ValidIsEncodable(cs, zlib);
      EncodesIff(content, cs, crc);
      var places :| Cut(content, 8, places, crc) && ChunksIn(content, places) == cs;
      ChunksAreFile(content, places, crc, zlib);
    }
    if IsPngFile(content, crc, zlib) {
      var places :| Cut(content, 8, places, crc) && GrammarFine(content, places)
        && PixelsFine(content, PixelBytes(content, places), zlib);
      ChunksAreFile(content, places, crc, zlib);
      var cs := ChunksIn(content, places);
      EncodesIff(content, cs, crc);
    }
  }

  lemma ValidIsEncodable(cs: seq<Chunk>, zlib: Zlib)
    requires ValidChunks(cs, zlib)
    ensures AllEncodable(cs)
  {
  }

  /** The decoded size of ordinary screenshots, with eight bits a sample and not interlaced. */
  lemma ScreenshotSize(h: Header)
    requires h.bitDepth == 8 && h.interlace == 0
    ensures h.colorType == 2 ==> DecodedSize(LayoutsOf(h)) == h.height * (3 * h.width + 1)
    ensures h.colorType == 6 ==> DecodedSize(LayoutsOf(h)) == h.height * (4 * h.width + 1)
  {
    var line := LayoutsOf(h)[0];
    assert LayoutsOf(h) == [line] && [line][..0] == [];
    assert DecodedSize([line]) == line.rows * (line.rowBytes + 1);
    assert h.colorType == 2 ==> line.rowBytes == 3 * h.width;
    assert h.colorType == 6 ==> line.rowBytes == 4 * h.width;
  }

  /** For every header, the scanlines hold the samples of every pixel at the depth of the header. */
  lemma ScanlinesHoldSamples(h: Header)
    requires DepthAllowed(h.colorType, h.bitDepth)
    ensures Holds(LayoutsOf(h), h.width * h.height, Samples(h.colorType) * h.bitDepth)
  {
    ScanlinesHoldImage(h);
    ChannelsAre(h.colorType);
    hide Holds, LayoutsOf, Channels;
  }
}
