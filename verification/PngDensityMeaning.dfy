/** What the rewriting of the print density (scripts/docs_terminal_capture.py:927-945) and the quality checks
  * (scripts/docs_screenshot_manifest.py:715-778) mean for the bytes of an accepted file.
  */
module PngDensityMeaning {
  import opened PngDensity
  import opened PngFormat
  import opened PngGrammar
  import opened PngMeaning
  import opened PngValidation
  import opened Wrappers

  // ----- the rewritten file -----

  function Bytes32(n: U32): (b: Bytes)
    ensures |b| == 4 && BigEndian(b, 0) == n
  {
    Big(n);
    var a, b, c, d := n / 0x100_0000, n / 0x1_0000 % 0x100, n / 0x100 % 0x100, n % 0x100;
    [a, b, c, d]
  }

  lemma Big(n: U32)
    ensures n / 0x100_0000 < 256
    ensures n == 0x100_0000 * (n / 0x100_0000) + 0x1_0000 * (n / 0x1_0000 % 0x100) + 0x100 * (n / 0x100 % 0x100) +
      n % 0x100
  {
    assert n / 0x1_0000 == n / 0x100 / 0x100 && n / 0x100_0000 == n / 0x100 / 0x100 / 0x100;
  }

  /** The chunk that is put in: nine bytes, 5669 (0x1625) pixels per metre on both axes, and their CRC. */
  ghost function DensityChunk(crc: Crc): seq<int> {
    var density: Bytes := [112, 72, 89, 115, 0, 0, 0x16, 0x25, 0, 0, 0x16, 0x25, 1];
    [0, 0, 0, 9] + density + Bytes32(crc(density))
  }

  /** The chunks of these places as they stand, one after the other, without those that state a density. */
  ghost function WithoutDensity(content: Bytes, places: seq<Place>): Bytes {
    if places == [] then []
    else
      var n := |places| - 1;
      var p := places[n];
      WithoutDensity(content, places[..n])
      + (if p.from <= p.to <= |content| && !Kind(content, p, "pHYs") then content[p.from..p.to] else [])
  }

  lemma PackIs(n: U32)
    ensures Pack32(n) == Bytes32(n)
  {
    Unpacked(Bytes32(n), 0);
    assert Bytes32(n)[0..0 + 4] == Bytes32(n);
    PackUnpack(Bytes32(n));
  }

  /** A chunk's encoding is what stands in its place. */
  lemma EncodedInPlace(content: Bytes, p: Place, crc: Crc)
    requires IsChunk(content, p, crc)
    ensures |ChunkIn(content, p).payload| < 0x1_0000_0000 && Encode(ChunkIn(content, p), crc) == content[p.from..p.to]
  {
    var c := ChunkIn(content, p);
    Unpacked(content, p.from);
    Unpacked(content, p.to - 4);
    PackUnpack(content[p.from..p.from + 4]);
    PackUnpack(content[p.to - 4..p.to - 4 + 4]);
    hide Pack32, Unpack32, BigEndian;
    assert c.kind == content[p.from + 4..p.from + 8] && c.payload == content[p.from + 8..p.to - 4];
    assert content[p.from + 4..p.from + 8] + content[p.from + 8..p.to - 4] == content[p.from + 4..p.to - 4];
    assert content[p.from..p.to] ==
      content[p.from..p.from + 4] + content[p.from + 4..p.from + 8] + content[p.from + 8..p.to - 4] +
        content[p.to - 4..p.to];
  }

  lemma DensityEncoded(crc: Crc)
    ensures Encode(Density(), crc) == DensityChunk(crc)
  {
    var density: Bytes := [112, 72, 89, 115, 0, 0, 0x16, 0x25, 0, 0, 0x16, 0x25, 1];
    assert Pack32(5669) == [0, 0, 0x16, 0x25] && Pack32(9) == [0, 0, 0, 9];
    PackIs(crc(density));
    hide Pack32, Bytes32;
    assert Density().kind + Density().payload == density;
  }

  ghost predicate AllChunks(content: Bytes, places: seq<Place>, crc: Crc) {
    forall p :: p in places ==> IsChunk(content, p, crc)
  }

  lemma {:induction false} CutChunks(content: Bytes, cursor: nat, places: seq<Place>, crc: Crc)
    requires Cut(content, cursor, places, crc)
    ensures AllChunks(content, places, crc)
    decreases |places|
  {
    hide IsChunk;
    if places != [] {
      CutChunks(content, places[0].to, places[1..], crc);
      assert places == [places[0]] + places[1..];
    }
  }

  lemma PhysIs()
    ensures PHYS == Ascii("pHYs") && IHDR == Ascii("IHDR") && PHYS != IHDR
    ensures ACTL == Ascii("acTL") && FCTL == Ascii("fcTL") && FDAT == Ascii("fdAT") && IDAT == Ascii("IDAT")
  {
  }

  /** What one more chunk adds to the rewritten file. */
  lemma ReplacedInPlace(content: Bytes, p: Place, crc: Crc)
    requires IsChunk(content, p, crc)
    ensures
      var r := Replacement(ChunkIn(content, p));
      && AllEncodable(r)
      && EncodeAll(r, crc) == (if Kind(content, p, "pHYs") then [] else content[p.from..p.to])
           + (if Kind(content, p, "IHDR") then DensityChunk(crc) else [])
  {
    hide Ascii, Encode, Density, DensityChunk, BigEndian;
    var c := ChunkIn(content, p);
    PhysIs();
    ChunkInside(content, p, crc);
    KindIs(content, p, "pHYs");
    KindIs(content, p, "IHDR");
    EncodedInPlace(content, p, crc);
    DensityEncoded(crc);
    DensityEncodable();
    hide IHDR, PHYS, ChunkIn, IsChunk, Kind;
    OneEncoded(c, crc);
    OneEncoded(Density(), crc);
    if c.kind == IHDR {
      assert Replacement(c) == [c] + [Density()];
      EncodeAllJoins([c], [Density()], crc);
    } else if c.kind != PHYS {
      assert Replacement(c) == [c];
    } else {
      assert Replacement(c) == [];
    }
  }

  lemma DensityEncodable()
    ensures Encodable(Density())
  {
  }

  lemma OneEncoded(c: Chunk, crc: Crc)
    requires Encodable(c)
    ensures AllEncodable([c]) && EncodeAll([c], crc) == Encode(c, crc)
  {
    hide Encode;
    assert [c][1..] == [] && EncodeAll([c][1..], crc) == [];
  }

  lemma {:induction false} RewrittenBytes(content: Bytes, places: seq<Place>, crc: Crc)
    requires places != [] && AllChunks(content, places, crc)
    requires forall i :: 0 <= i < |places| ==> (Kind(content, places[i], "IHDR") <==> i == 0)
    requires !Kind(content, places[0], "pHYs")
    ensures
      var w, p := WithDensity(ChunksIn(content, places)), places[0];
      && p.from <= p.to <= |content| && AllEncodable(w)
      && EncodeAll(w, crc) == content[p.from..p.to] + DensityChunk(crc) + WithoutDensity(content, places[1..])
    decreases |places|
  {
    hide Kind, Replacement, DensityChunk, IsChunk, EncodeAll, ChunkIn;
    var n := |places| - 1;
    var cs, front := ChunksIn(content, places), places[..n];
    assert cs[..n] == ChunksIn(content, front);
    ChunkInside(content, places[n], crc);
    ChunkInside(content, places[0], crc);
    ReplacedInPlace(content, places[n], crc);
    if n == 0 {
      NothingEncodedYet(crc);
      assert WithDensity(cs) == Replacement(cs[0]);
    } else {
      RewrittenBytes(content, front, crc);
      EncodeAllJoins(WithDensity(cs[..n]), Replacement(cs[n]), crc);
      assert places[1..][..n - 1] == front[1..];
    }
  }

  lemma NothingEncodedYet(crc: Crc)
    ensures EncodeAll([], crc) == []
  {
  }

  lemma HeaderPlace(content: Bytes, places: seq<Place>, crc: Crc)
    requires Cut(content, 8, places, crc) && GrammarFine(content, places)
    ensures places != [] && places[0] == Place(8, 33) && |content| >= 33
    ensures forall i :: 0 <= i < |places| ==> (Kind(content, places[i], "IHDR") <==> i == 0)
  {
    hide Kind, KindFine, PixelsTogether, PalettesFine, BigEndian, Ascii;
    forall i | 0 <= i < |places| ensures Kind(content, places[i], "IHDR") <==> i == 0 {
      assert IsKind(content, places, i, "IHDR") <==> i == 0;
    }
  }

  /** The rewritten file: the first 33 bytes, which are the signature and the header, the density chunk, and the other
    * chunks as they stood, in order.
    */
  lemma RewrittenFile(content: Bytes, places: seq<Place>, crc: Crc)
    requires Signed(content) && Cut(content, 8, places, crc) && GrammarFine(content, places)
    ensures AllEncodable(WithDensity(ChunksIn(content, places)))
    ensures Png(WithDensity(ChunksIn(content, places)), crc)
      == content[..33] + DensityChunk(crc) + WithoutDensity(content, places[1..])
  {
    hide DensityChunk, WithDensity, EncodeAll, Kind, GrammarFine, Cut, Signed, SIGNATURE, IsChunk, WithoutDensity,
      ChunksIn;
    HeaderPlace(content, places, crc);
    CutChunks(content, 8, places, crc);
    HeaderIsNoDensity(content, places[0]);
    RewrittenBytes(content, places, crc);
    SignatureIs(content);
    Joined(content, DensityChunk(crc), WithoutDensity(content, places[1..]));
  }

  lemma Joined(content: Bytes, a: seq<int>, b: seq<int>)
    requires |content| >= 33
    ensures content[..8] + (content[8..33] + a + b) == content[..33] + a + b
  {
  }

  lemma SignatureIs(content: Bytes)
    requires Signed(content)
    ensures content[..8] == SIGNATURE
  {
  }

  lemma HeaderIsNoDensity(content: Bytes, p: Place)
    requires Kind(content, p, "IHDR")
    ensures !Kind(content, p, "pHYs")
  {
    PhysIs();
    hide Ascii;
  }

  // ----- the quality checks -----

  /** Whether 0.0254 times the number is within 0.02 of 144. */
  lemma OffDensityIs(perMetre: U32)
    ensures OffDensity(perMetre) <==> perMetre !in {5669, 5670}
  {
    var scaled := perMetre as real * 0.0254;
    assert scaled * 10000.0 == (perMetre * 254) as real;
  }

  /** At i stands the one density chunk: nine bytes, before the pixels. */
  ghost predicate DensityAt(content: Bytes, places: seq<Place>, i: int) {
    && IsKind(content, places, i, "pHYs") && places[i].to == places[i].from + 21
    && (forall j :: IsKind(content, places, j, "pHYs") ==> j == i)
    && (forall j :: j < i ==> !IsKind(content, places, j, "IDAT"))
  }

  /** It states 5669 or 5670 pixels per metre, which is 144 dpi, on both axes. */
  ghost predicate DensityFine(content: Bytes, p: Place)
    requires p.from + 21 <= |content|
  {
    BigEndian(content, p.from + 8) in {5669, 5670} && BigEndian(content, p.from + 12) in {5669, 5670}
    && content[p.from + 16] == 1
  }

  /** The one density chunk among the first n. */
  ghost predicate OnlyAt(cs: seq<Chunk>, n: nat, i: nat) {
    i < n <= |cs| && cs[i].kind == PHYS && forall j :: 0 <= j < n && cs[j].kind == PHYS ==> j == i
  }

  lemma {:induction false} ResolutionsAre(cs: seq<Chunk>, n: nat)
    requires n <= |cs| && !Malformed(cs, n)
    ensures |Resolutions(cs, n)| == 0 <==> forall i :: 0 <= i < n ==> cs[i].kind != PHYS
    ensures |Resolutions(cs, n)| == 1 <==> exists i: nat :: OnlyAt(cs, n, i)
    ensures forall i: nat :: OnlyAt(cs, n, i) ==> Resolutions(cs, n) == [cs[i].payload]
    decreases n
  {
    hide PHYS;
    if n > 0 {
      assert !Misplaced(cs, n - 1);
      assert !Malformed(cs, n - 1);
      ResolutionsAre(cs, n - 1);
      if cs[n - 1].kind == PHYS {
        if forall i :: 0 <= i < n - 1 ==> cs[i].kind != PHYS {
          assert OnlyAt(cs, n, n - 1);
        }
      } else {
        forall i: nat ensures OnlyAt(cs, n, i) <==> OnlyAt(cs, n - 1, i) {
        }
        var m: nat := n - 1;
        if i: nat :| OnlyAt(cs, m, i) {
          assert OnlyAt(cs, n, i);
        }
        if i: nat :| OnlyAt(cs, n, i) {
          assert OnlyAt(cs, n - 1, i);
        }
      }
    }
  }

  ghost predicate IsDensity(cs: seq<Chunk>, i: nat) {
    OnlyAt(cs, |cs|, i) && !Misplaced(cs, i)
  }

  lemma OneResolutionIff(cs: seq<Chunk>)
    ensures OneResolution(cs) <==> exists i: nat :: IsDensity(cs, i)
    ensures forall i: nat :: IsDensity(cs, i) ==> i < |cs| && Resolutions(cs, |cs|) == [cs[i].payload]
  {
    hide PHYS;
    if OneResolution(cs) {
      ResolutionsAre(cs, |cs|);
      var i: nat :| OnlyAt(cs, |cs|, i);
      assert !Misplaced(cs, i);
      assert IsDensity(cs, i);
    }
    if i: nat :| IsDensity(cs, i) {
      forall j | 0 <= j < |cs| ensures !Misplaced(cs, j) {
        if cs[j].kind == PHYS {
          assert j == i;
        }
      }
      ResolutionsAre(cs, |cs|);
    }
  }

  lemma DensityAtIff(content: Bytes, places: seq<Place>, cs: seq<Chunk>, i: nat)
    requires AllInside(content, places) && cs == ChunksIn(content, places)
    requires SameKind(content, places, cs, "pHYs", PHYS) && SameKind(content, places, cs, "IDAT", IDAT)
    ensures DensityAt(content, places, i) <==> IsDensity(cs, i)
  {
    hide Kind, PHYS, IDAT, IsKind;
    if i < |cs| {
      HasAt(cs, i, IDAT);
      assert Is(cs, i, PHYS) <==> cs[i].kind == PHYS;
      assert |cs[i].payload| == places[i].to - places[i].from - 12;
      forall j | 0 <= j < |cs| ensures IsKind(content, places, j, "pHYs") <==> cs[j].kind == PHYS {
        assert Is(cs, j, PHYS) <==> cs[j].kind == PHYS;
      }
    }
    KindInRange(content, places, "pHYs");
    KindInRange(content, places, "IDAT");
  }

  lemma SliceOfSlice(content: Bytes, a: nat, b: nat, i: nat, j: nat)
    requires a <= b <= |content| && i <= j <= b - a
    ensures content[a..b][i..j] == content[a + i..a + j]
  {
    var x, y := content[a..b][i..j], content[a + i..a + j];
    assert forall k :: 0 <= k < j - i ==> x[k] == content[a..b][i + k] == y[k];
  }

  lemma DensityFineIff(content: Bytes, p: Place)
    requires p.to == p.from + 21 && p.to <= |content|
    ensures |ChunkIn(content, p).payload| == 9
    ensures DensityFine(content, p) <==> !WrongResolution(ChunkIn(content, p).payload)
  {
    hide OffDensity, Unpack32, BigEndian;
    var payload := ChunkIn(content, p).payload;
    Unpacked(content, p.from + 8);
    Unpacked(content, p.from + 12);
    SliceOfSlice(content, p.from + 8, p.to - 4, 0, 4);
    SliceOfSlice(content, p.from + 8, p.to - 4, 4, 8);
    assert payload[..4] == payload[0..4];
    OffDensityIs(Unpack32(payload[..4]));
    OffDensityIs(Unpack32(payload[4..8]));
  }

  lemma AnimatedIff(content: Bytes, places: seq<Place>)
    requires AllInside(content, places)
    ensures Animated(ChunksIn(content, places), |places|) <==>
      exists p :: p in places && (Kind(content, p, "acTL") || Kind(content, p, "fcTL") || Kind(content, p, "fdAT"))
  {
    PhysIs();
    hide Ascii, Kind, ACTL, FCTL, FDAT;
    var cs := ChunksIn(content, places);
    forall i | 0 <= i < |cs|
      ensures places[i] in places
      ensures cs[i].kind in {ACTL, FCTL, FDAT} <==>
        Kind(content, places[i], "acTL") || Kind(content, places[i], "fcTL") || Kind(content, places[i], "fdAT")
    {
      KindIs(content, places[i], "acTL");
      KindIs(content, places[i], "fcTL");
      KindIs(content, places[i], "fdAT");
    }
  }

  /** The measurements of an accepted file, in its bytes. */
  lemma MeasuredMeans(failures: seq<QualityFailure>, content: Bytes, places: seq<Place>, crc: Crc, narrow: bool)
    requires Cut(content, 8, places, crc) && GrammarFine(content, places)
    requires StartsWithHeader(ChunksIn(content, places)) && Measured(failures, ChunksIn(content, places), narrow)
    ensures |content| >= 33 && AllInside(content, places)
    ensures WidthOutOfRange in failures <==>
      BigEndian(content, 16) > 1000 || (BigEndian(content, 16) < 750 && !narrow)
    ensures IsAnimated in failures <==>
      exists p :: p in places && (Kind(content, p, "acTL") || Kind(content, p, "fcTL") || Kind(content, p, "fdAT"))
    ensures ResolutionMissing in failures <==> forall i :: !DensityAt(content, places, i)
    ensures ResolutionWrong in failures <==>
      exists i :: DensityAt(content, places, i) && !DensityFine(content, places[i])
  {
    hide Kind, BigEndian, GrammarFine, Cut, Animated, OneResolution, WrongResolution, DensityAt, HeaderOf, Resolutions,
      Misplaced, PHYS, IDAT, SameKind, Ascii, DensityFine, IsDensity;
    var cs := ChunksIn(content, places);
    HeaderPlace(content, places, crc);
    CutInside(content, 8, places, crc);
    GrammarIff(content, places, crc);
    AnimatedIff(content, places);
    PhysIs();
    KindsAreSame(content, places, "pHYs", PHYS);
    KindsAreSame(content, places, "IDAT", IDAT);
    OneResolutionIff(cs);
    forall i: nat ensures DensityAt(content, places, i) <==> IsDensity(cs, i) {
      DensityAtIff(content, places, cs, i);
    }
    forall i | DensityAt(content, places, i)
      ensures 0 <= i < |places| && places[i].to == places[i].from + 21
      ensures DensityFine(content, places[i]) <==> !WrongResolution(cs[i].payload)
    {
      DensityInRange(content, places, i);
      DensityFineIff(content, places[i]);
    }
  }

  lemma DensityInRange(content: Bytes, places: seq<Place>, i: int)
    requires DensityAt(content, places, i)
    ensures 0 <= i < |places| && places[i].to == places[i].from + 21
  {
  }
}
