/** The print-density rewrite in `_validate_result` (scripts/docs_terminal_capture.py) and the measurements
  * of `image_quality_failures` (scripts/docs_screenshot_manifest.py). Both walk over a validated file
  * without checking it again.
  */
module PngDensity {
  import opened PngFormat
  import opened PngValidation
  import opened Wrappers

  // ----- the rewritten chunk list -----

  /** 5669 pixels per metre on both axes (section 4.2.5). */
  function Density(): Chunk {
    Chunk(PHYS, Pack32(5669) + Pack32(5669) + [1])
  }

  ghost function WithDensity(cs: seq<Chunk>): seq<Chunk> {
    if cs == [] then []
    else
      var last := cs[|cs| - 1];
      WithDensity(cs[..|cs| - 1]) + Replacement(last)
  }

  function Replacement(c: Chunk): seq<Chunk> {
    (if c.kind != PHYS then [c] else []) + if c.kind == IHDR then [Density()] else []
  }

  /** The chunks other than pHYs, in their order. */
  ghost function Others(cs: seq<Chunk>): seq<Chunk> {
    if cs == [] then []
    else
      var last := cs[|cs| - 1];
      Others(cs[..|cs| - 1]) + if last.kind != PHYS then [last] else []
  }

  lemma WithDensityStep(front: seq<Chunk>, c: Chunk)
    ensures WithDensity(front + [c]) == WithDensity(front) + Replacement(c)
    ensures Others(front + [c]) == Others(front) + if c.kind != PHYS then [c] else []
  {
    assert (front + [c])[..|front|] == front;
  }

  /** How the rewritten prefix of a file stands to the prefix itself. */
  ghost predicate Alike(front: seq<Chunk>, w: seq<Chunk>) {
    && Ordered(w) && |w| > 1 && |front| > 0 && w[0] == front[0] && w[1] == Density()
    && (forall i :: 2 <= i < |w| ==> w[i].kind != PHYS)
    && (forall kind :: kind != PHYS ==> (Has(w, kind) <==> Has(front, kind)))
    && ImageData(w) == ImageData(front)
    && (front[|front| - 1].kind == IDAT ==> w[|w| - 1].kind == IDAT)
  }

  lemma DensityFits(c: Chunk)
    requires Fits([], c)
    ensures Ordered([c, Density()])
  {
    assert Ordered([]);
    SnocStep([], c);
    assert [] + [c] == [c];
    HasStep([], c, IEND);
    SnocStep([c], Density());
    assert [c] + [Density()] == [c, Density()];
  }

  lemma AlikeStart(c: Chunk)
    requires Fits([], c)
    ensures Alike([c], WithDensity([c]))
  {
    DensityFits(c);
    WithDensityStep([], c);
    assert [] + [c] == [c] && WithDensity([c]) == [c, Density()];
    SnocStep([], c);
    SnocStep([c], Density());
    assert [c] + [Density()] == [c, Density()];
    forall kind | kind != PHYS
      ensures Has([c, Density()], kind) <==> Has([c], kind)
    {
      HasStep([c], Density(), kind);
    }
  }

  /** What may follow a prefix may follow its rewriting, since only pHYs chunks differ. */
  lemma FitsAlike(front: seq<Chunk>, w: seq<Chunk>, c: Chunk)
    requires Alike(front, w) && Fits(front, c) && c.kind != PHYS
    ensures Ordered(w + [c])
  {
    SnocStep(w, c);
    assert Has(w, PLTE) <==> Has(front, PLTE);
    assert Has(w, IDAT) <==> Has(front, IDAT);
    assert Has(w, IEND) <==> Has(front, IEND);
  }

  lemma AlikeWithout(front: seq<Chunk>, w: seq<Chunk>, c: Chunk)
    requires Alike(front, w) && c.kind == PHYS
    ensures Alike(front + [c], w)
  {
    SnocStep(front, c);
    forall kind | kind != PHYS
      ensures Has(w, kind) <==> Has(front + [c], kind)
    {
      HasStep(front, c, kind);
    }
    hide Ordered, Has, ImageData;
  }

  lemma AlikeWith(front: seq<Chunk>, w: seq<Chunk>, c: Chunk)
    requires Alike(front, w) && Fits(front, c) && c.kind != PHYS
    ensures Alike(front + [c], w + [c])
  {
    SnocStep(front, c);
    SnocStep(w, c);
    FitsAlike(front, w, c);
    forall kind | kind != PHYS
      ensures Has(w + [c], kind) <==> Has(front + [c], kind)
    {
      HasStep(front, c, kind);
      HasStep(w, c, kind);
    }
    hide Ordered, Has, ImageData, Fits;
  }

  lemma OneHeader(front: seq<Chunk>, c: Chunk)
    requires Fits(front, c) && front != []
    ensures c.kind != IHDR
  {
  }

  lemma AlikeStep(front: seq<Chunk>, w: seq<Chunk>, c: Chunk)
    requires front != [] && Alike(front, w) && Fits(front, c)
    ensures Alike(front + [c], w + Replacement(c))
  {
    hide Alike, Fits;
    OneHeader(front, c);
    if c.kind == PHYS {
      AlikeWithout(front, w, c);
      assert Replacement(c) == [] && w + [] == w;
    } else {
      AlikeWith(front, w, c);
      assert Replacement(c) == [c];
    }
  }

  lemma {:induction false} RewriteAlike(cs: seq<Chunk>)
    requires Ordered(cs) && cs != []
    ensures Alike(cs, WithDensity(cs))
    decreases |cs|
  {
    hide Fits, Alike;
    var front, c := cs[..|cs| - 1], cs[|cs| - 1];
    assert cs == front + [c];
    if front == [] {
      AlikeStart(c);
    } else {
      RewriteAlike(front);
      AlikeStep(front, WithDensity(front), c);
    }
  }

  /** The rewritten file is valid again, with the same header and the same pixels. */
  lemma RewriteKeepsValid(cs: seq<Chunk>, zlib: Zlib)
    requires ValidChunks(cs, zlib)
    ensures ValidChunks(WithDensity(cs), zlib)
    ensures WithDensity(cs)[0] == cs[0] && ImageData(WithDensity(cs)) == ImageData(cs)
  {
    RewriteAlike(cs);
    RewriteEncodable(cs);
    var w := WithDensity(cs);
    WithDensityStep(cs[..|cs| - 1], cs[|cs| - 1]);
    assert cs == cs[..|cs| - 1] + [cs[|cs| - 1]];
    assert w[|w| - 1] == cs[|cs| - 1];
  }

  lemma {:induction false} RewriteEncodable(cs: seq<Chunk>)
    requires AllEncodable(cs)
    ensures AllEncodable(WithDensity(cs))
    decreases |cs|
  {
    if cs != [] {
      assert cs[|cs| - 1] in cs;
      RewriteEncodable(cs[..|cs| - 1]);
    }
  }

  /** There is exactly one pHYs chunk, straight after the header, and it states the density. */
  lemma OneDensity(cs: seq<Chunk>, zlib: Zlib)
    requires ValidChunks(cs, zlib)
    ensures
      var w := WithDensity(cs);
      && |w| > 1 && w[0].kind == IHDR && w[1] == Density()
      && forall i :: 0 <= i < |w| && w[i].kind == PHYS ==> i == 1
  {
    RewriteAlike(cs);
  }

  /** Every other chunk survives unchanged and in order. */
  lemma {:induction false} OthersSurvive(cs: seq<Chunk>)
    ensures Others(WithDensity(cs)) == Others(cs)
    decreases |cs|
  {
    if cs != [] {
      var front, c := cs[..|cs| - 1], cs[|cs| - 1];
      var w := WithDensity(front);
      OthersSurvive(front);
      if c.kind == IHDR {
        assert w + Replacement(c) == (w + [c]) + [Density()];
        WithDensityStep(w + [c], Density());
        WithDensityStep(w, c);
      } else if c.kind != PHYS {
        assert w + Replacement(c) == w + [c];
        WithDensityStep(w, c);
      } else {
        assert w + Replacement(c) == w;
      }
    }
  }

  /** Rewriting twice is rewriting once. */
  lemma {:induction false} RewriteTwice(cs: seq<Chunk>)
    requires Ordered(cs)
    ensures WithDensity(WithDensity(cs)) == WithDensity(cs)
    decreases |cs|
  {
    if cs != [] {
      var front, c := cs[..|cs| - 1], cs[|cs| - 1];
      var w := WithDensity(front);
      RewriteTwice(front);
      if c.kind == IHDR {
        assert front == [] && w == [];
        assert WithDensity(cs) == [c, Density()];
        assert [c, Density()] == [c] + [Density()] && [] + [c] == [c];
        WithDensityStep([c], Density());
        WithDensityStep([], c);
      } else if c.kind != PHYS {
        assert w + Replacement(c) == w + [c];
        WithDensityStep(w, c);
      } else {
        assert w + Replacement(c) == w;
      }
    }
  }

  // ----- walking over a validated file -----

  /** The rest of the file from `offset` on encodes the chunks from the k-th on. */
  ghost predicate At(content: Bytes, offset: nat, cs: seq<Chunk>, k: nat, crc: Crc) {
    && offset <= |content| && k <= |cs| && AllEncodable(cs[k..])
    && content[offset..] == EncodeAll(cs[k..], crc)
  }

  lemma WalkStart(cs: seq<Chunk>, crc: Crc)
    requires AllEncodable(cs)
    ensures At(Png(cs, crc), 8, cs, 0, crc)
  {
    assert cs[0..] == cs;
    assert Png(cs, crc)[8..] == EncodeAll(cs, crc);
  }

  /** What the unchecked reads of one pass find. */
  lemma WalkStep(content: Bytes, offset: nat, cs: seq<Chunk>, k: nat, crc: Crc)
    requires At(content, offset, cs, k, crc) && offset < |content|
    ensures k < |cs| && Encodable(cs[k])
    ensures
      var end := offset + 12 + |cs[k].payload|;
      && end <= |content|
      && Unpack32(content[offset..offset + 4]) == |cs[k].payload|
      && content[offset + 4..offset + 8] == cs[k].kind
      && content[offset + 8..end - 4] == cs[k].payload
      && content[offset..end] == Encode(cs[k], crc)
      && At(content, end, cs, k + 1, crc)
  {
    var rest := cs[k..];
    assert rest != [] by {
      assert |content[offset..]| > 0;
    }
    assert rest[0] == cs[k] && rest[0] in rest && rest[1..] == cs[k + 1..];
    assert forall c :: c in cs[k + 1..] ==> c in rest;
    EncodedChunkAt(content, offset, cs[k], EncodeAll(rest[1..], crc), crc);
    ChunkAtReads(content, offset, crc);
    var end := offset + 12 + |cs[k].payload|;
    assert content[offset..end] == content[offset..][..end - offset];
  }

  lemma ChunkAtReads(content: Bytes, cursor: nat, crc: Crc)
    requires cursor <= |content| && ChunkAt(content, cursor, crc).Some?
    ensures
      var c := ChunkAt(content, cursor, crc).value;
      && Unpack32(content[cursor..cursor + 4]) == |c.payload|
      && content[cursor + 4..cursor + 8] == c.kind
      && content[cursor + 8..cursor + 8 + |c.payload|] == c.payload
  {
  }

  /** The rewriting loop. */
  method RewriteDensity(image: Bytes, crc: Crc, ghost cs: seq<Chunk>) returns (publication: Bytes)
    requires AllEncodable(cs) && image == Png(cs, crc)
    ensures AllEncodable(WithDensity(cs)) && publication == Png(WithDensity(cs), crc)
  {
    hide Encode, EncodeAll, At, Png, Pack32, Unpack32;
    RewriteEncodable(cs);
    var density := PHYS + Pack32(5669) + Pack32(5669) + [1];
    var densityChunk := Pack32(9) + density + Pack32(crc(density));
    DensityBytes(crc);
    var chunks := SIGNATURE;
    var offset := |SIGNATURE|;
    ghost var k := 0;
    WalkStart(cs, crc);
    NothingEncoded(crc);
    while offset < |image|
      invariant k <= |cs| && At(image, offset, cs, k, crc)
      invariant AllEncodable(WithDensity(cs[..k])) && chunks == Png(WithDensity(cs[..k]), crc)
      decreases |image| - offset
    {
      WalkStep(image, offset, cs, k, crc);
      RewriteStep(cs, k, crc);
      var length := Unpack32(image[offset..offset + 4]);
      var kind := image[offset + 4..offset + 8];
      var end := offset + length + 12;
      if kind != PHYS {
        chunks := chunks + image[offset..end];
      }
      if kind == IHDR {
        chunks := chunks + densityChunk;
      }
      offset := end;
      k := k + 1;
    }
    Inside(image, offset, cs, k, crc);
    WalkEnd(image, offset, cs, k, crc);
    assert cs[..k] == cs;
    publication := chunks;
  }

  lemma Inside(content: Bytes, offset: nat, cs: seq<Chunk>, k: nat, crc: Crc)
    requires At(content, offset, cs, k, crc)
    ensures offset <= |content| && k <= |cs|
  {
  }

  lemma NothingEncoded(crc: Crc)
    ensures AllEncodable(WithDensity([])) && Png(WithDensity([]), crc) == SIGNATURE
  {
    assert SIGNATURE + EncodeAll([], crc) == SIGNATURE;
  }

  lemma DensityBytes(crc: Crc)
    ensures Encodable(Density())
    ensures
      var density := PHYS + Pack32(5669) + Pack32(5669) + [1];
      Encode(Density(), crc) == Pack32(9) + density + Pack32(crc(density))
  {
    hide Pack32;
    var p := Density().payload;
    assert PHYS + p == PHYS + Pack32(5669) + Pack32(5669) + [1];
    assert Pack32(9) + PHYS + p == Pack32(9) + (PHYS + p);
  }

  lemma WalkEnd(content: Bytes, offset: nat, cs: seq<Chunk>, k: nat, crc: Crc)
    requires At(content, offset, cs, k, crc) && offset == |content|
    ensures k == |cs|
  {
    if k < |cs| {
      NonEmptyEncoding(cs[k..], crc);
    }
  }

  lemma NonEmptyEncoding(cs: seq<Chunk>, crc: Crc)
    requires AllEncodable(cs) && cs != []
    ensures |EncodeAll(cs, crc)| > 0
  {
    assert cs[0] in cs;
  }

  /** The bytes that one pass appends. */
  lemma RewriteStep(cs: seq<Chunk>, k: nat, crc: Crc)
    requires AllEncodable(cs) && k < |cs| && AllEncodable(WithDensity(cs[..k]))
    ensures Encodable(cs[k]) && Encodable(Density()) && AllEncodable(WithDensity(cs[..k + 1]))
    ensures Png(WithDensity(cs[..k + 1]), crc) ==
      Png(WithDensity(cs[..k]), crc)
      + (if cs[k].kind != PHYS then Encode(cs[k], crc) else [])
      + (if cs[k].kind == IHDR then Encode(Density(), crc) else [])
  {
    hide Encode;
    assert cs[k] in cs;
    assert cs[..k + 1] == cs[..k] + [cs[k]];
    WithDensityStep(cs[..k], cs[k]);
    var w, c := WithDensity(cs[..k]), cs[k];
    EncodeSome(c, crc);
    EncodeAllJoins(w, Replacement(c), crc);
    hide Density, Replacement, WithDensity, EncodeAll;
    var first := if c.kind != PHYS then Encode(c, crc) else [];
    var second := if c.kind == IHDR then Encode(Density(), crc) else [];
    Associate(SIGNATURE, EncodeAll(w, crc), first, second);
  }

  lemma Associate<T>(a: seq<T>, b: seq<T>, c: seq<T>, d: seq<T>)
    ensures a + (b + (c + d)) == a + b + c + d
  {
  }

  lemma EncodeSome(c: Chunk, crc: Crc)
    requires Encodable(c)
    ensures AllEncodable(Replacement(c)) && Encodable(Density())
    ensures EncodeAll(Replacement(c), crc) ==
      (if c.kind != PHYS then Encode(c, crc) else []) + if c.kind == IHDR then Encode(Density(), crc) else []
  {
    hide Encode;
    EncodeOne(c, crc);
    EncodeOne(Density(), crc);
    if c.kind == IHDR {
      EncodeAllJoins([c], [Density()], crc);
    } else if c.kind != PHYS {
      assert [c] + [] == [c];
    }
  }

  lemma EncodeOne(c: Chunk, crc: Crc)
    requires Encodable(c)
    ensures AllEncodable([c]) && EncodeAll([c], crc) == Encode(c, crc)
  {
    hide Encode;
    assert [c][1..] == [];
    assert EncodeAll([], crc) == [];
  }

  // ----- the measurements -----

  datatype QualityFailure =
    | TooLarge | InvalidEncoding | WidthOutOfRange | IsAnimated | ResolutionMissing | ResolutionWrong

  /** The i-th chunk is a pHYs of the wrong length or after the first pixels. */
  ghost predicate Misplaced(cs: seq<Chunk>, i: nat)
    requires i < |cs|
  {
    cs[i].kind == PHYS && (|cs[i].payload| != 9 || Has(cs[..i], IDAT))
  }

  ghost predicate Malformed(cs: seq<Chunk>, n: nat)
    requires n <= |cs|
  {
    exists i :: 0 <= i < n && Misplaced(cs, i)
  }

  /** The resolutions among the first n chunks that are stated properly. */
  ghost function Resolutions(cs: seq<Chunk>, n: nat): seq<Bytes>
    requires n <= |cs|
  {
    if n == 0 then []
    else
      Resolutions(cs, n - 1) + if cs[n - 1].kind == PHYS && !Misplaced(cs, n - 1) then [cs[n - 1].payload] else []
  }

  ghost predicate Animated(cs: seq<Chunk>, n: nat)
    requires n <= |cs|
  {
    exists i :: 0 <= i < n && cs[i].kind in {ACTL, FCTL, FDAT}
  }

  ghost predicate OneResolution(cs: seq<Chunk>) {
    !Malformed(cs, |cs|) && |Resolutions(cs, |cs|)| == 1
  }

  /** Further than 0.02 dpi from 144 dpi. */
  predicate OffDensity(perMetre: U32) {
    var d := perMetre as real * 0.0254 - 144.0;
    d > 0.02 || d < -0.02
  }

  predicate WrongResolution(p: Bytes)
    requires |p| == 9
  {
    p[8] != 1 || OffDensity(Unpack32(p[..4])) || OffDensity(Unpack32(p[4..8]))
  }

  lemma {:induction false} ResolutionsLength(cs: seq<Chunk>, n: nat)
    requires n <= |cs|
    ensures forall p :: p in Resolutions(cs, n) ==> |p| == 9
    decreases n
  {
    if n > 0 {
      ResolutionsLength(cs, n - 1);
    }
  }

  ghost predicate WidthOff(width: U32, narrow: bool) {
    width > 1000 || (width < 750 && !narrow)
  }

  /** What the walk over the chunks finds. */
  datatype Walk = Walk(resolutions: seq<Bytes>, malformed: bool, animated: bool)

  method WalkChunks(content: Bytes, crc: Crc, ghost cs: seq<Chunk>) returns (found: Walk)
    requires AllEncodable(cs) && content == Png(cs, crc)
    ensures found == Walk(Resolutions(cs, |cs|), Malformed(cs, |cs|), Animated(cs, |cs|))
  {
    hide Encode, EncodeAll, At, Png, Pack32, Unpack32;
    found := Walk([], false, false);
    var offset := |SIGNATURE|;
    var seenPixels := false;
    ghost var k := 0;
    WalkStart(cs, crc);
    while offset < |content|
      invariant k <= |cs| && At(content, offset, cs, k, crc)
      invariant seenPixels <==> Has(cs[..k], IDAT)
      invariant found.resolutions == Resolutions(cs, k)
      invariant found.malformed == Malformed(cs, k) && found.animated == Animated(cs, k)
      decreases |content| - offset
    {
      WalkStep(content, offset, cs, k, crc);
      var length := Unpack32(content[offset..offset + 4]);
      var kind := content[offset + 4..offset + 8];
      if kind == PHYS {
        if length != 9 || seenPixels {
          found := found.(malformed := true);
        } else {
          found := found.(resolutions := found.resolutions + [content[offset + 8..offset + 17]]);
        }
      }
      if kind in {ACTL, FCTL, FDAT} {
        found := found.(animated := true);
      }
      assert cs[..k + 1] == cs[..k] + [cs[k]];
      HasStep(cs[..k], cs[k], IDAT);
      MeasureStep(cs, k);
      seenPixels := seenPixels || kind == IDAT;
      offset := offset + length + 12;
      k := k + 1;
    }
    Inside(content, offset, cs, k, crc);
    WalkEnd(content, offset, cs, k, crc);
  }

  lemma MeasureStep(cs: seq<Chunk>, k: nat)
    requires k < |cs|
    ensures Malformed(cs, k + 1) <==> Malformed(cs, k) || Misplaced(cs, k)
    ensures Animated(cs, k + 1) <==> Animated(cs, k) || cs[k].kind in {ACTL, FCTL, FDAT}
  {
  }

  /** The failures say exactly what is wrong with the chunks. */
  ghost predicate Measured(failures: seq<QualityFailure>, cs: seq<Chunk>, narrow: bool)
    requires StartsWithHeader(cs)
  {
    && (WidthOutOfRange in failures <==> WidthOff(HeaderOf(cs[0].payload).width, narrow))
    && (IsAnimated in failures <==> Animated(cs, |cs|))
    && (ResolutionMissing in failures <==> !OneResolution(cs))
    && (ResolutionWrong in failures <==>
          OneResolution(cs) && |Resolutions(cs, |cs|)[0]| == 9 && WrongResolution(Resolutions(cs, |cs|)[0]))
  }

  lemma WidthAt16(content: Bytes, cs: seq<Chunk>, crc: Crc)
    requires AllEncodable(cs) && StartsWithHeader(cs) && content == Png(cs, crc)
    ensures |content| >= 20 && Unpack32(content[16..20]) == HeaderOf(cs[0].payload).width
  {
    WalkStart(cs, crc);
    assert cs[0] in cs;
    NonEmptyEncoding(cs, crc);
    assert content[8..] == EncodeAll(cs, crc);
    WalkStep(content, 8, cs, 0, crc);
    assert content[16..20] == cs[0].payload[..4];
  }

  lemma OneDecodingOnly(content: Bytes, crc: Crc, zlib: Zlib, a: seq<Chunk>, b: seq<Chunk>)
    requires ValidChunks(a, zlib) && content == Png(a, crc)
    requires ValidChunks(b, zlib) && content == Png(b, crc)
    ensures a == b
  {
    PngIffTiles(content, a, crc);
    PngIffTiles(content, b, crc);
  }

  /** `image_quality_failures`; `narrow` is the scenario's reviewed narrow-image exception. */
  method ImageQualityFailures(content: Bytes, crc: Crc, zlib: Zlib, narrow: bool)
    returns (failures: seq<QualityFailure>)
    ensures TooLarge in failures <==> |content| > 250_000
    ensures InvalidEncoding in failures <==> !IsPng(content, crc, zlib)
    ensures forall cs :: ValidChunks(cs, zlib) && content == Png(cs, crc) ==> Measured(failures, cs, narrow)
  {
    hide PixelsDecode, WellFormed, Png, StartsWithHeader, Measured, AllEncodable;
    var size := if |content| > 250_000 then [TooLarge] else [];
    var valid := ValidatePngBytes(content, crc, zlib);
    if !valid {
      return size + [InvalidEncoding];
    }
    ghost var cs :| ValidChunks(cs, zlib) && content == Png(cs, crc);
    var rest := MeasureChunks(content, crc, narrow, cs);
    failures := size + rest;
    SizeApart(size, rest, cs, narrow);
    forall other | ValidChunks(other, zlib) && content == Png(other, crc)
      ensures other == cs
    {
      OneDecodingOnly(content, crc, zlib, cs, other);
    }
  }

  lemma SizeApart(size: seq<QualityFailure>, rest: seq<QualityFailure>, cs: seq<Chunk>, narrow: bool)
    requires StartsWithHeader(cs) && Measured(rest, cs, narrow) && forall f :: f in size ==> f == TooLarge
    ensures Measured(size + rest, cs, narrow)
  {
    hide OneResolution, Animated, WidthOff, WrongResolution, HeaderOf;
  }

  /** The measurements after the file has been found valid. */
  method MeasureChunks(content: Bytes, crc: Crc, narrow: bool, ghost cs: seq<Chunk>)
    returns (failures: seq<QualityFailure>)
    requires AllEncodable(cs) && StartsWithHeader(cs) && content == Png(cs, crc)
    ensures TooLarge !in failures && InvalidEncoding !in failures
    ensures Measured(failures, cs, narrow)
  {
    hide Png, ValidHeader, WrongResolution, Animated, Malformed;
    WidthAt16(content, cs, crc);
    var width := Unpack32(content[16..20]);
    var found := WalkChunks(content, crc, cs);
    ResolutionsLength(cs, |cs|);
    hide HeaderOf, Unpack32, AllEncodable;
    failures := Report(width, narrow, found);
  }

  method Report(width: U32, narrow: bool, found: Walk) returns (failures: seq<QualityFailure>)
    requires forall p :: p in found.resolutions ==> |p| == 9
    ensures TooLarge !in failures && InvalidEncoding !in failures
    ensures WidthOutOfRange in failures <==> WidthOff(width, narrow)
    ensures IsAnimated in failures <==> found.animated
    ensures ResolutionMissing in failures <==> found.malformed || |found.resolutions| != 1
    ensures ResolutionWrong in failures <==>
      !found.malformed && |found.resolutions| == 1 && |found.resolutions[0]| == 9
        && WrongResolution(found.resolutions[0])
  {
    hide WrongResolution;
    failures := if width > 1000 || (width < 750 && !narrow) then [WidthOutOfRange] else [];
    if found.animated {
      failures := failures + [IsAnimated];
    }
    if found.malformed || |found.resolutions| != 1 {
      failures := failures + [ResolutionMissing];
    } else {
      assert found.resolutions[0] in found.resolutions;
      if WrongResolution(found.resolutions[0]) {
        failures := failures + [ResolutionWrong];
      }
    }
  }

  // ----- the published image -----

  /** The rewritten file states one proper resolution, and states it right. */
  lemma {:induction false} RewrittenResolution(w: seq<Chunk>, n: nat)
    requires 2 <= n <= |w| && w[0].kind == IHDR && w[1] == Density()
    requires forall i :: 2 <= i < |w| ==> w[i].kind != PHYS
    ensures !Malformed(w, n) && Resolutions(w, n) == [Density().payload]
    decreases n
  {
    assert |Density().payload| == 9;
    if n == 2 {
      assert w[..1] == [w[0]];
      assert !Misplaced(w, 0) && !Misplaced(w, 1);
      assert Resolutions(w, 1) == [];
      assert [] + [Density().payload] == [Density().payload];
    } else {
      RewrittenResolution(w, n - 1);
      assert !Misplaced(w, n - 1);
    }
  }

  lemma DensityIsRight()
    ensures |Density().payload| == 9 && !WrongResolution(Density().payload)
  {
    var p := Density().payload;
    UnpackPack(5669);
    hide Unpack32, Pack32;
    assert p[..4] == Pack32(5669) && p[4..8] == Pack32(5669) && p[8] == 1;
  }

  /** `_validate_result` from the decoding of the captured PNG on. When it publishes, it publishes the captured
    * file with only its print density replaced; it never complains about the encoding or the resolution of
    * what it has rewritten.
    */
  method PublicationImage(image: Bytes, crc: Crc, zlib: Zlib, narrow: bool)
    returns (publication: Option<Bytes>, failures: seq<QualityFailure>)
    ensures publication.Some? ==> IsPng(image, crc, zlib) && IsPng(publication.value, crc, zlib)
    ensures forall cs :: ValidChunks(cs, zlib) && image == Png(cs, crc) ==>
      && Rewritable(cs, zlib)
      && InvalidEncoding !in failures && ResolutionMissing !in failures && ResolutionWrong !in failures
      && publication == (if failures == [] then Some(Png(WithDensity(cs), crc)) else None)
  {
    hide PixelsDecode, WellFormed, Png, StartsWithHeader, AllEncodable, Measured;
    var valid := ValidatePngBytes(image, crc, zlib);
    if !valid {
      return None, [InvalidEncoding];
    }
    ghost var cs :| ValidChunks(cs, zlib) && image == Png(cs, crc);
    forall other | ValidChunks(other, zlib) && image == Png(other, crc)
      ensures other == cs
    {
      OneDecodingOnly(image, crc, zlib, cs, other);
    }
    RewriteKeepsValid(cs, zlib);
    var rewritten := RewriteDensity(image, crc, cs);
    failures := ImageQualityFailures(rewritten, crc, zlib, narrow);
    NoResolutionFailure(failures, cs, zlib, narrow);
    publication := if failures == [] then Some(rewritten) else None;
  }

  ghost predicate Rewritable(cs: seq<Chunk>, zlib: Zlib) {
    ValidChunks(WithDensity(cs), zlib)
  }

  lemma NoResolutionFailure(failures: seq<QualityFailure>, cs: seq<Chunk>, zlib: Zlib, narrow: bool)
    requires ValidChunks(cs, zlib) && ValidChunks(WithDensity(cs), zlib)
    requires Measured(failures, WithDensity(cs), narrow)
    ensures ResolutionMissing !in failures && ResolutionWrong !in failures
  {
    hide PixelsDecode, Animated, WidthOff, HeaderOf;
    var w := WithDensity(cs);
    OneDensity(cs, zlib);
    RewrittenResolution(w, |w|);
    DensityIsRight();
  }
}
