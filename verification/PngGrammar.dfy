/** The chunk order of section 4.3 of RFC 2083 stated by position, independently of the order in which a reader
  * meets the chunks, and its agreement with the chunk-by-chunk form that the validator follows.
  */
module PngGrammar {
  import opened PngFormat

  ghost predicate Is(cs: seq<Chunk>, i: nat, kind: Bytes) {
    i < |cs| && cs[i].kind == kind
  }

  ghost predicate Unbroken(cs: seq<Chunk>) {
    forall i, j, k {:trigger Is(cs, i, IDAT), Is(cs, j, IDAT), Is(cs, k, IDAT)} ::
      0 <= i <= j <= k && Is(cs, i, IDAT) && Is(cs, k, IDAT) ==> Is(cs, j, IDAT)
  }

  ghost predicate PaletteFirst(cs: seq<Chunk>) {
    && (forall i, j {:trigger Is(cs, i, PLTE), Is(cs, j, PLTE)} :: 0 <= i < j ==> !(Is(cs, i, PLTE) && Is(cs, j, PLTE)))
    && (forall i, j {:trigger Is(cs, i, IDAT), Is(cs, j, PLTE)} :: 0 <= i < j ==> !(Is(cs, i, IDAT) && Is(cs, j, PLTE)))
  }

  ghost predicate PaletteIfNeeded(cs: seq<Chunk>, h: Header) {
    && (forall i {:trigger Is(cs, i, PLTE)} :: 0 <= i && Is(cs, i, PLTE) ==> PaletteFits(h, |cs[i].payload|))
    && (h.colorType == 3 ==>
          forall j {:trigger Is(cs, j, IDAT)} :: 0 <= j && Is(cs, j, IDAT) ==>
            exists i :: 0 <= i < j && Is(cs, i, PLTE))
  }

  ghost predicate KindsFine(cs: seq<Chunk>) {
    forall i {:trigger cs[i]} :: 0 <= i < |cs| ==>
      && Named(cs[i].kind)
      && (cs[i].kind == IHDR <==> i == 0)
      && (cs[i].kind == IEND <==> i == |cs| - 1)
      && (cs[i].kind !in {IHDR, PLTE, IDAT, IEND} ==> Bit5(cs[i].kind[0]))
  }

  /** One header first, at most one palette and it before the pixels, one unbroken run of pixels, no unknown
    * critical chunk, and an empty end chunk last.
    */
  ghost predicate ByPosition(cs: seq<Chunk>) {
    && |cs| > 0 && KindsFine(cs)
    && ValidHeader(cs[0].payload)
    && Has(cs, IDAT) && Unbroken(cs) && |ImageData(cs)| <= DECODE_LIMIT
    && PaletteFirst(cs) && PaletteIfNeeded(cs, HeaderOf(cs[0].payload))
    && cs[|cs| - 1].payload == []
  }

  lemma HasAt(cs: seq<Chunk>, n: nat, kind: Bytes)
    requires n <= |cs|
    ensures Has(cs[..n], kind) <==> exists i :: 0 <= i < n && Is(cs, i, kind)
  {
    if Has(cs[..n], kind) {
      var c :| c in cs[..n] && c.kind == kind;
      var i :| 0 <= i < n && cs[..n][i] == c;
      assert Is(cs, i, kind);
    }
    if i :| 0 <= i < n && Is(cs, i, kind) {
      assert cs[..n][i] in cs[..n];
    }
  }

  lemma {:induction false} ImageDataGrows(cs: seq<Chunk>, n: nat)
    requires n <= |cs|
    ensures |ImageData(cs[..n])| <= |ImageData(cs)|
    ensures n < |cs| && cs[n].kind == IDAT ==> |ImageData(cs[..n])| + |cs[n].payload| <= |ImageData(cs)|
    decreases |cs| - n
  {
    if n < |cs| {
      ImageDataGrows(cs, n + 1);
      assert cs[..n + 1] == cs[..n] + [cs[n]];
      SnocStep(cs[..n], cs[n]);
    } else {
      assert cs[..n] == cs;
    }
  }

  // ----- from the chunk-by-chunk form to the positions -----

  /** Going back from an IDAT chunk, the run is unbroken. */
  lemma {:induction false} RunBackwards(cs: seq<Chunk>, i: nat, j: nat, k: nat)
    requires Ordered(cs) && i <= j <= k && Is(cs, i, IDAT) && Is(cs, k, IDAT)
    ensures Is(cs, j, IDAT)
    decreases k
  {
    if j < k {
      OrderedFits(cs, k);
      HasAt(cs, k, IDAT);
      assert StartsWithHeader(cs[..k]);
      assert cs[..k][k - 1].kind == IDAT;
      RunBackwards(cs, i, j, k - 1);
    }
  }

  lemma PositionFacts(cs: seq<Chunk>, n: nat)
    requires WellFormed(cs) && n < |cs|
    ensures Named(cs[n].kind) && (cs[n].kind == IHDR <==> n == 0) && (cs[n].kind == IEND <==> n == |cs| - 1)
    ensures cs[n].kind !in {IHDR, PLTE, IDAT, IEND} ==> Bit5(cs[n].kind[0])
    ensures n > 0 ==> cs[0].kind == IHDR && ValidHeader(cs[0].payload)
    ensures n > 0 && cs[n].kind == PLTE ==>
      && !Has(cs[..n], PLTE) && !Has(cs[..n], IDAT)
      && PaletteFits(HeaderOf(cs[0].payload), |cs[n].payload|)
    ensures n > 0 && cs[n].kind == IDAT ==>
      (HeaderOf(cs[0].payload).colorType == 3 ==> Has(cs[..n], PLTE))
        && |ImageData(cs[..n])| + |cs[n].payload| <= DECODE_LIMIT
    ensures n > 0 && cs[n].kind == IEND ==> Has(cs[..n], IDAT) && cs[n].payload == []
  {
    OrderedFits(cs, n);
    if n > 0 {
      assert cs[..n][0] == cs[0];
    }
    HasAt(cs, |cs| - 1, IEND);
    assert Is(cs, n, IEND) <==> cs[n].kind == IEND;
    OrderedFits(cs, |cs| - 1);
  }

  lemma ImageDataLimited(cs: seq<Chunk>, n: nat)
    requires WellFormed(cs) && n <= |cs|
    ensures |ImageData(cs[..n])| <= DECODE_LIMIT
    decreases n
  {
    if n > 0 {
      ImageDataLimited(cs, n - 1);
      PositionFacts(cs, n - 1);
      assert cs[..n] == cs[..n - 1] + [cs[n - 1]];
      SnocStep(cs[..n - 1], cs[n - 1]);
    } else {
      assert cs[..0] == [];
    }
  }

  lemma PaletteAt(cs: seq<Chunk>, j: nat)
    requires WellFormed(cs) && |cs| > 1 && j < |cs|
    ensures Is(cs, j, PLTE) ==> PaletteFits(HeaderOf(cs[0].payload), |cs[j].payload|)
    ensures forall i :: 0 <= i < j ==> !(Is(cs, i, PLTE) && Is(cs, j, PLTE)) && !(Is(cs, i, IDAT) && Is(cs, j, PLTE))
    ensures Is(cs, j, IDAT) && HeaderOf(cs[0].payload).colorType == 3 ==> exists i :: 0 <= i < j && Is(cs, i, PLTE)
  {
    HeaderThere(cs);
    PositionFacts(cs, j);
    HasAt(cs, j, PLTE);
    HasAt(cs, j, IDAT);
    hide WellFormed, PaletteFits, HeaderOf, Has;
  }

  lemma HeaderThere(cs: seq<Chunk>)
    requires WellFormed(cs)
    ensures |cs| > 1 && cs[0].kind == IHDR && ValidHeader(cs[0].payload)
    ensures Has(cs, IDAT) && cs[|cs| - 1].payload == []
  {
    PositionFacts(cs, |cs| - 1);
    PositionFacts(cs, 0);
    HasAt(cs, |cs| - 1, IDAT);
    HasAt(cs, |cs|, IDAT);
    assert cs[..|cs|] == cs;
  }

  lemma KindsByPosition(cs: seq<Chunk>)
    requires WellFormed(cs)
    ensures KindsFine(cs)
  {
    hide WellFormed, PaletteFits, HeaderOf, ValidHeader;
    forall n | 0 <= n < |cs|
      ensures Named(cs[n].kind) && (cs[n].kind == IHDR <==> n == 0) && (cs[n].kind == IEND <==> n == |cs| - 1)
      ensures cs[n].kind !in {IHDR, PLTE, IDAT, IEND} ==> Bit5(cs[n].kind[0])
    {
      PositionFacts(cs, n);
    }
  }

  lemma RunByPosition(cs: seq<Chunk>)
    requires WellFormed(cs)
    ensures Unbroken(cs)
  {
    hide WellFormed;
    OrderedIfWellFormed(cs);
    forall i, j, k | 0 <= i <= j <= k && Is(cs, i, IDAT) && Is(cs, k, IDAT)
      ensures Is(cs, j, IDAT)
    {
      RunBackwards(cs, i, j, k);
    }
  }

  lemma PaletteByPosition(cs: seq<Chunk>)
    requires WellFormed(cs) && |cs| > 1 && cs[0].kind == IHDR && ValidHeader(cs[0].payload)
    ensures PaletteFirst(cs) && PaletteIfNeeded(cs, HeaderOf(cs[0].payload))
  {
    hide WellFormed, PaletteFits, HeaderOf;
    forall j | 0 <= j < |cs|
      ensures Is(cs, j, PLTE) ==> PaletteFits(HeaderOf(cs[0].payload), |cs[j].payload|)
      ensures forall i :: 0 <= i < j ==> !(Is(cs, i, PLTE) && Is(cs, j, PLTE)) && !(Is(cs, i, IDAT) && Is(cs, j, PLTE))
      ensures Is(cs, j, IDAT) && HeaderOf(cs[0].payload).colorType == 3 ==> exists i :: 0 <= i < j && Is(cs, i, PLTE)
    {
      PaletteAt(cs, j);
    }
  }

  lemma WellFormedByPosition(cs: seq<Chunk>)
    requires WellFormed(cs)
    ensures ByPosition(cs)
  {
    hide WellFormed, KindsFine, Unbroken, PaletteFirst, PaletteIfNeeded, HeaderOf;
    HeaderThere(cs);
    KindsByPosition(cs);
    RunByPosition(cs);
    PaletteByPosition(cs);
    ImageDataLimited(cs, |cs|);
    assert cs[..|cs|] == cs;
  }

  lemma OrderedIfWellFormed(cs: seq<Chunk>)
    requires WellFormed(cs)
    ensures Ordered(cs)
  {
  }

  // ----- from the positions to the chunk-by-chunk form -----

  lemma PaletteFitsThere(cs: seq<Chunk>, n: nat)
    requires ByPosition(cs) && 0 < n < |cs| && Is(cs, n, PLTE)
    ensures !Has(cs[..n], PLTE) && !Has(cs[..n], IDAT) && PaletteFits(HeaderOf(cs[0].payload), |cs[n].payload|)
  {
    hide HeaderOf, PaletteFits, ImageData;
    HasAt(cs, n, PLTE);
    HasAt(cs, n, IDAT);
  }

  lemma PixelsFitThere(cs: seq<Chunk>, n: nat)
    requires ByPosition(cs) && 0 < n < |cs| && Is(cs, n, IDAT)
    ensures Has(cs[..n], IDAT) ==> Is(cs, n - 1, IDAT)
    ensures HeaderOf(cs[0].payload).colorType == 3 ==> Has(cs[..n], PLTE)
    ensures |ImageData(cs[..n])| + |cs[n].payload| <= DECODE_LIMIT
  {
    hide HeaderOf, PaletteFits, ImageData;
    HasAt(cs, n, PLTE);
    HasAt(cs, n, IDAT);
    ImageDataGrows(cs, n);
    if Has(cs[..n], IDAT) {
      var i :| 0 <= i < n && Is(cs, i, IDAT);
      var between := Is(cs, n - 1, IDAT);
      assert 0 <= i <= n - 1 <= n;
    }
  }

  lemma EndFitsThere(cs: seq<Chunk>, n: nat)
    requires ByPosition(cs) && n < |cs|
    ensures !Has(cs[..n], IEND)
    ensures Is(cs, n, IEND) ==> n == |cs| - 1 && cs[n].payload == [] && Has(cs[..n], IDAT)
  {
    hide HeaderOf, PaletteFits, ImageData;
    HasAt(cs, n, IEND);
    HasAt(cs, n, IDAT);
    HasAt(cs, |cs|, IDAT);
    assert cs[..|cs|] == cs;
    var i :| 0 <= i < |cs| && Is(cs, i, IDAT);
  }

  lemma PositionsFit(cs: seq<Chunk>, n: nat)
    requires ByPosition(cs) && n < |cs|
    ensures Fits(cs[..n], cs[n])
  {
    EndFitsThere(cs, n);
    assert Is(cs, n, IEND) <==> cs[n].kind == IEND;
    if n > 0 {
      assert cs[..n][0] == cs[0] && cs[..n][n - 1] == cs[n - 1];
      if cs[n].kind == IDAT {
        PixelsFitThere(cs, n);
      }
      if cs[n].kind == PLTE {
        PaletteFitsThere(cs, n);
      }
    }
    hide Unbroken, PaletteFirst, PaletteIfNeeded, ImageData, Has, HeaderOf, PaletteFits, ValidHeader;
  }

  lemma {:induction false} PositionsOrdered(cs: seq<Chunk>, n: nat)
    requires ByPosition(cs) && n <= |cs|
    ensures Ordered(cs[..n])
    decreases n
  {
    hide ByPosition, Fits;
    if n > 0 {
      PositionsOrdered(cs, n - 1);
      PositionsFit(cs, n - 1);
      assert cs[..n] == cs[..n - 1] + [cs[n - 1]];
      SnocStep(cs[..n - 1], cs[n - 1]);
    } else {
      assert cs[..0] == [];
    }
  }

  /** Reading chunk by chunk accepts exactly what the positions demand. */
  lemma WellFormedIffByPosition(cs: seq<Chunk>)
    ensures WellFormed(cs) <==> ByPosition(cs)
  {
    if WellFormed(cs) {
      WellFormedByPosition(cs);
    }
    if ByPosition(cs) {
      PositionsOrdered(cs, |cs|);
      assert cs[..|cs|] == cs;
    }
  }
}
