/** PNG files as lists of chunks (RFC 2083, sections 3.1 and 3.2) and the chunk order that
  * `validate_png_bytes` (scripts/docs_screenshot_manifest.py) demands.
  */
module PngFormat {
  import opened Division
  import opened Wrappers

  type Byte = n: nat | n < 256
  type Bytes = seq<Byte>
  type U32 = n: nat | n < 0x1_0000_0000

  /** `zlib.crc32` */
  type Crc = Bytes -> U32

  datatype Chunk = Chunk(kind: Bytes, payload: Bytes)

  const SIGNATURE: Bytes := [0x89, 0x50, 0x4E, 0x47, 0x0D, 0x0A, 0x1A, 0x0A]
  const IHDR: Bytes := [73, 72, 68, 82]
  const PLTE: Bytes := [80, 76, 84, 69]
  const IDAT: Bytes := [73, 68, 65, 84]
  const IEND: Bytes := [73, 69, 78, 68]
  const PHYS: Bytes := [112, 72, 89, 115]
  const ACTL: Bytes := [97, 99, 84, 76]
  const FCTL: Bytes := [102, 99, 84, 76]
  const FDAT: Bytes := [102, 100, 65, 84]

  const DECODE_LIMIT := 256 * 1024 * 1024

  // ----- big-endian numbers -----

  /** `struct.pack(">I", n)` */
  function Pack32(n: U32): (b: Bytes)
    ensures |b| == 4
  {
    var high: int := n / 256;
    var higher: int := high / 256;
    [higher / 256, higher % 256, high % 256, n % 256]
  }

  /** `struct.unpack(">I", b)` */
  function Unpack32(b: Bytes): (n: U32)
    requires |b| == 4
  {
    var b0: int, b1: int, b2: int, b3: int := b[0], b[1], b[2], b[3];
    ((b0 * 256 + b1) * 256 + b2) * 256 + b3
  }

  lemma UnpackPack(n: U32)
    ensures Unpack32(Pack32(n)) == n
  {
  }

  lemma PackUnpack(b: Bytes)
    requires |b| == 4
    ensures Pack32(Unpack32(b)) == b
  {
    var b0: int, b1: int, b2: int, b3: int := b[0], b[1], b[2], b[3];
    Quotient(Unpack32(b), 256, (b0 * 256 + b1) * 256 + b2, b3);
    Quotient((b0 * 256 + b1) * 256 + b2, 256, b0 * 256 + b1, b2);
    Quotient(b0 * 256 + b1, 256, b0, b1);
  }

  // ----- chunks as bytes -----

  ghost predicate Encodable(c: Chunk) {
    |c.kind| == 4 && |c.payload| < 0x1_0000_0000
  }

  ghost predicate AllEncodable(cs: seq<Chunk>) {
    forall c :: c in cs ==> Encodable(c)
  }

  function Encode(c: Chunk, crc: Crc): (b: Bytes)
    requires |c.payload| < 0x1_0000_0000
    ensures |b| == 8 + |c.kind| + |c.payload|
  {
    Pack32(|c.payload|) + c.kind + c.payload + Pack32(crc(c.kind + c.payload))
  }

  ghost function EncodeAll(cs: seq<Chunk>, crc: Crc): Bytes
    requires AllEncodable(cs)
  {
    if cs == [] then [] else assert cs[0] in cs; Encode(cs[0], crc) + EncodeAll(cs[1..], crc)
  }

  /** The bytes of a whole file. */
  ghost function Png(cs: seq<Chunk>, crc: Crc): Bytes
    requires AllEncodable(cs)
  {
    SIGNATURE + EncodeAll(cs, crc)
  }

  lemma {:induction false} EncodeAllJoins(a: seq<Chunk>, b: seq<Chunk>, crc: Crc)
    requires AllEncodable(a) && AllEncodable(b)
    ensures AllEncodable(a + b) && EncodeAll(a + b, crc) == EncodeAll(a, crc) + EncodeAll(b, crc)
    decreases |a|
  {
    hide Encode;
    if a == [] {
      assert a + b == b;
    } else {
      EncodeAllJoins(a[1..], b, crc);
      assert (a + b)[0] == a[0] && (a + b)[1..] == a[1..] + b;
    }
  }

  // ----- bytes as chunks -----

  /** The chunk that starts at `cursor`, when its length fits and its CRC matches. */
  function ChunkAt(content: Bytes, cursor: nat, crc: Crc): (c: Option<Chunk>)
    requires cursor <= |content|
    ensures c.Some? ==> Encodable(c.value) && cursor + 12 + |c.value.payload| <= |content|
  {
    if |content| - cursor < 12 then None
    else
      var length := Unpack32(content[cursor..cursor + 4]);
      var end := cursor + 8 + length;
      if end + 4 > |content| then None
      else
        var c := Chunk(content[cursor + 4..cursor + 8], content[cursor + 8..end]);
        if Unpack32(content[end..end + 4]) != crc(c.kind + c.payload) then None else Some(c)
  }

  lemma ChunkAtDecodes(content: Bytes, cursor: nat, crc: Crc)
    requires cursor <= |content| && ChunkAt(content, cursor, crc).Some?
    ensures
      var c := ChunkAt(content, cursor, crc).value;
      content[cursor..] == Encode(c, crc) + content[cursor + 12 + |c.payload|..]
  {
    var c := ChunkAt(content, cursor, crc).value;
    var end := cursor + 8 + |c.payload|;
    PackUnpack(content[cursor..cursor + 4]);
    PackUnpack(content[end..end + 4]);
    assert content[cursor..] == content[cursor..cursor + 4] + content[cursor + 4..cursor + 8]
                                + content[cursor + 8..end] + content[end..end + 4] + content[end + 4..];
  }

  /** Where the parts of a concatenation lie. */
  lemma Parts<T>(p: seq<T>, k: seq<T>, l: seq<T>, q: seq<T>, rest: seq<T>)
    requires |p| == |k| == |q| == 4
    ensures
      var b := p + k + l + q + rest;
      var end := 8 + |l|;
      && |b| == end + 4 + |rest|
      && b[..4] == p && b[4..8] == k && b[8..end] == l && b[end..end + 4] == q && b[end + 4..] == rest
  {
  }

  lemma EncodedChunkAt(content: Bytes, cursor: nat, c: Chunk, rest: Bytes, crc: Crc)
    requires cursor <= |content| && Encodable(c)
    requires content[cursor..] == Encode(c, crc) + rest
    ensures ChunkAt(content, cursor, crc) == Some(c)
    ensures content[cursor + 12 + |c.payload|..] == rest
  {
    hide Pack32, Unpack32;
    var end := cursor + 8 + |c.payload|;
    var b := content[cursor..];
    Parts(Pack32(|c.payload|), c.kind, c.payload, Pack32(crc(c.kind + c.payload)), rest);
    assert content[cursor..cursor + 4] == b[..4];
    assert content[cursor + 4..cursor + 8] == b[4..8];
    assert content[cursor + 8..end] == b[8..8 + |c.payload|];
    assert content[end..end + 4] == b[8 + |c.payload|..12 + |c.payload|];
    assert content[end + 4..] == b[12 + |c.payload|..];
    UnpackPack(|c.payload|);
    UnpackPack(crc(c.kind + c.payload));
  }

  /** All chunks from `cursor` on, when they tile the rest of the file. */
  ghost function Tiles(content: Bytes, cursor: nat, crc: Crc): Option<seq<Chunk>>
    requires cursor <= |content|
    decreases |content| - cursor
  {
    if cursor == |content| then Some([])
    else
      var c := ChunkAt(content, cursor, crc);
      if c.None? then None
      else
        var rest := Tiles(content, cursor + 12 + |c.value.payload|, crc);
        if rest.None? then None else Some([c.value] + rest.value)
  }

  lemma {:induction false} TilesSound(content: Bytes, cursor: nat, crc: Crc)
    requires cursor <= |content| && Tiles(content, cursor, crc).Some?
    ensures AllEncodable(Tiles(content, cursor, crc).value)
    ensures content[cursor..] == EncodeAll(Tiles(content, cursor, crc).value, crc)
    decreases |content| - cursor
  {
    if cursor < |content| {
      var c := ChunkAt(content, cursor, crc).value;
      ChunkAtDecodes(content, cursor, crc);
      TilesSound(content, cursor + 12 + |c.payload|, crc);
      var cs := Tiles(content, cursor, crc).value;
      assert cs[0] == c && cs[1..] == Tiles(content, cursor + 12 + |c.payload|, crc).value;
    }
  }

  lemma {:induction false} TilesComplete(content: Bytes, cursor: nat, cs: seq<Chunk>, crc: Crc)
    requires cursor <= |content| && AllEncodable(cs) && content[cursor..] == EncodeAll(cs, crc)
    ensures Tiles(content, cursor, crc) == Some(cs)
    decreases |cs|
  {
    hide Encode, ChunkAt;
    if cs == [] {
      assert |content[cursor..]| == 0;
    } else {
      assert cs[0] in cs;
      EncodedChunkAt(content, cursor, cs[0], EncodeAll(cs[1..], crc), crc);
      TilesComplete(content, cursor + 12 + |cs[0].payload|, cs[1..], crc);
      assert cs == [cs[0]] + cs[1..];
    }
  }

  /** A file is the encoding of at most one list of chunks, namely the one its bytes tile into. */
  lemma PngIffTiles(content: Bytes, cs: seq<Chunk>, crc: Crc)
    requires AllEncodable(cs)
    ensures content == Png(cs, crc) <==> SIGNATURE <= content && Tiles(content, 8, crc) == Some(cs)
  {
    if content == Png(cs, crc) {
      assert content[8..] == EncodeAll(cs, crc);
      TilesComplete(content, 8, cs, crc);
    }
    if SIGNATURE <= content && Tiles(content, 8, crc) == Some(cs) {
      TilesSound(content, 8, crc);
      assert content == content[..8] + content[8..];
    }
  }

  // ----- the header -----

  datatype Header = Header(width: U32, height: U32, bitDepth: Byte, colorType: Byte, interlace: Byte)

  /** `struct.unpack(">IIBBBBB", payload)` without the two method bytes. */
  function HeaderOf(p: Bytes): Header
    requires |p| == 13
  {
    Header(Unpack32(p[..4]), Unpack32(p[4..8]), p[8], p[9], p[12])
  }

  /** `_PNG_BIT_DEPTHS` */
  predicate DepthAllowed(colorType: Byte, bitDepth: Byte) {
    || (colorType == 0 && bitDepth in {1, 2, 4, 8, 16})
    || (colorType == 3 && bitDepth in {1, 2, 4, 8})
    || (colorType in {2, 4, 6} && bitDepth in {8, 16})
  }

  predicate ValidHeader(p: Bytes) {
    && |p| == 13
    && HeaderOf(p).width != 0 && HeaderOf(p).height != 0
    && DepthAllowed(p[9], p[8])
    && p[10] == 0 && p[11] == 0 && p[12] in {0, 1}
  }

  // ----- the order of the chunks -----

  predicate Letter(b: Byte) {
    65 <= b <= 90 || 97 <= b <= 122
  }

  /** `octet & 0x20` */
  predicate Bit5(b: Byte) {
    b / 32 % 2 == 1
  }

  /** Four letters, of which the third is upper-case (section 3.3). */
  predicate Named(kind: Bytes) {
    |kind| == 4 && (forall i :: 0 <= i < 4 ==> Letter(kind[i])) && !Bit5(kind[2])
  }

  ghost predicate Has(cs: seq<Chunk>, kind: Bytes) {
    exists c :: c in cs && c.kind == kind
  }

  ghost function ImageData(cs: seq<Chunk>): Bytes {
    if cs == [] then []
    else
      var last := cs[|cs| - 1];
      ImageData(cs[..|cs| - 1]) + if last.kind == IDAT then last.payload else []
  }

  /** The palette suits the colour type and has whole entries, no more than the bit depth can address. */
  predicate PaletteFits(h: Header, length: nat) {
    && h.colorType !in {0, 4}
    && 0 < length <= 768 && length % 3 == 0
    && (h.colorType == 3 ==> length / 3 <= Power2(h.bitDepth))
  }

  function Power2(n: nat): nat {
    if n == 0 then 1 else 2 * Power2(n - 1)
  }

  ghost predicate StartsWithHeader(cs: seq<Chunk>) {
    |cs| > 0 && cs[0].kind == IHDR && ValidHeader(cs[0].payload)
  }

  /** c may follow the chunks of `front` (section 4.3). */
  ghost predicate Fits(front: seq<Chunk>, c: Chunk) {
    && Named(c.kind)
    && !Has(front, IEND)
    && if front == [] then c.kind == IHDR && ValidHeader(c.payload)
       else StartsWithHeader(front) && FitsAfterHeader(front, HeaderOf(front[0].payload), c)
  }

  ghost predicate FitsAfterHeader(front: seq<Chunk>, h: Header, c: Chunk)
    requires |c.kind| == 4
  {
    && c.kind != IHDR
    && (c.kind == PLTE ==> !Has(front, PLTE) && !Has(front, IDAT) && PaletteFits(h, |c.payload|))
    && (c.kind == IDAT ==>
          && (Has(front, IDAT) ==> |front| > 0 && front[|front| - 1].kind == IDAT)
          && (h.colorType == 3 ==> Has(front, PLTE))
          && |ImageData(front)| + |c.payload| <= DECODE_LIMIT)
    && (c.kind == IEND ==> Has(front, IDAT) && c.payload == [])
    && (c.kind !in {PLTE, IDAT, IEND} ==> Bit5(c.kind[0]))
  }

  ghost predicate Ordered(cs: seq<Chunk>) {
    cs == [] || (Ordered(cs[..|cs| - 1]) && Fits(cs[..|cs| - 1], cs[|cs| - 1]))
  }

  /** The grammar of section 4.3: ordered chunks, the last of which is IEND. */
  ghost predicate WellFormed(cs: seq<Chunk>) {
    |cs| > 0 && Ordered(cs) && cs[|cs| - 1].kind == IEND
  }

  // ----- adding one chunk -----

  lemma HasStep(front: seq<Chunk>, c: Chunk, kind: Bytes)
    ensures Has(front + [c], kind) <==> Has(front, kind) || c.kind == kind
  {
    var all := front + [c];
    assert forall x :: x in all <==> x in front || x == c;
    assert all[|front|] == c;
    if Has(front, kind) {
      var x :| x in front && x.kind == kind;
      assert x in all;
    }
  }

  lemma SnocStep(front: seq<Chunk>, c: Chunk)
    ensures ImageData(front + [c]) == ImageData(front) + if c.kind == IDAT then c.payload else []
    ensures Ordered(front + [c]) <==> Ordered(front) && Fits(front, c)
  {
    hide Fits;
    assert (front + [c])[..|front|] == front;
  }

  lemma {:induction false} OrderedPrefix(cs: seq<Chunk>, n: nat)
    requires Ordered(cs) && n <= |cs|
    ensures Ordered(cs[..n])
    decreases |cs|
  {
    hide Fits;
    if n < |cs| {
      OrderedPrefix(cs[..|cs| - 1], n);
      assert cs[..|cs| - 1][..n] == cs[..n];
    } else {
      assert cs[..n] == cs;
    }
  }

  /** In an ordered list every chunk fits after those before it. */
  lemma OrderedFits(cs: seq<Chunk>, n: nat)
    requires Ordered(cs) && n < |cs|
    ensures Ordered(cs[..n]) && Fits(cs[..n], cs[n])
  {
    hide Fits;
    OrderedPrefix(cs, n + 1);
    assert cs[..n + 1] == cs[..n] + [cs[n]];
    SnocStep(cs[..n], cs[n]);
  }
}
