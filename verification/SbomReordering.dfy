/** Permuting the components, the dependency nodes or their edge lists of a document changes neither whether
  * `canonicalize_sbom` accepts it nor, up to Python's equality, the result (scripts/generate_sbom.py:257-307).
  */
module SbomReordering {
  import opened CycloneDx
  import opened Json
  import opened SbomCanonical
  import opened SbomComponentLaws
  import opened SbomComponents
  import opened SbomGraph
  import opened SbomMerging
  import opened SbomOrder
  import opened SbomSanitizing
  import opened Sorting

  ghost predicate Permuted(v: Json, w: Json) {
    v == w || (v.Arr? && w.Arr? && multiset(v.items) == multiset(w.items))
  }

  ghost predicate Rearranged(v: Json, w: Json) {
    v == w || (v.Arr? && w.Arr? && SameNodeLists(v.items, w.items))
  }

  ghost predicate SameElsewhere(v: Json, w: Json) {
    v.Obj? && w.Obj? && v.fields.Keys == w.fields.Keys
    && forall k :: k in v.fields && k != COMPONENTS && k != DEPENDENCIES ==> v.fields[k] == w.fields[k]
  }

  /** The same document but for the order of its components, of its dependency nodes and of their edges. */
  ghost predicate Reordered(v: Json, w: Json) {
    SameElsewhere(v, w) && Permuted(v.Get(COMPONENTS), w.Get(COMPONENTS))
      && Rearranged(v.Get(DEPENDENCIES), w.Get(DEPENDENCIES))
  }

  lemma ReorderedSymmetric(v: Json, w: Json)
    requires Reordered(v, w)
    ensures Reordered(w, v)
  {
    if v.Get(DEPENDENCIES) != w.Get(DEPENDENCIES) {
      SameListsSymmetric(v.Get(DEPENDENCIES).items, w.Get(DEPENDENCIES).items);
    }
    hide SameNodeLists;
  }

  // ----- trimming and sanitising -----

  lemma {:induction false} StrippedAppend(a: seq<Json>, b: seq<Json>, file: string -> bool)
    ensures StrippedItems(a + b, file) == StrippedItems(a, file) + StrippedItems(b, file)
  {
    StrippedAt(a, file);
    StrippedAt(b, file);
    StrippedAt(a + b, file);
    hide Stripped, StrippedItems;
  }

  lemma StrippedOne(x: Json, file: string -> bool)
    ensures StrippedItems([x], file) == [Stripped(x, file)]
  {
    StrippedAt([x], file);
    hide Stripped, StrippedItems;
  }

  /** Taking an element out of the middle takes its sanitised form out. */
  lemma StrippedMiddle(before: seq<Json>, x: Json, after: seq<Json>, file: string -> bool)
    ensures multiset(StrippedItems(before + [x] + after, file)) ==
      multiset{Stripped(x, file)} + multiset(StrippedItems(before + after, file))
  {
    hide Stripped, StrippedItems;
    StrippedAppend(before + [x], after, file);
    StrippedAppend(before, [x], file);
    StrippedAppend(before, after, file);
    StrippedOne(x, file);
  }

  lemma Occurrence(a: seq<Json>, b: seq<Json>) returns (j: nat)
    requires multiset(a) == multiset(b) && a != []
    ensures j < |b| && b[j] == a[0] && b == b[..j] + [a[0]] + b[j + 1..]
    ensures multiset(a[1..]) == multiset(b[..j] + b[j + 1..])
  {
    assert a == [a[0]] + a[1..];
    assert a[0] in multiset(a);
    assert a[0] in multiset(b);
    j :| 0 <= j < |b| && b[j] == a[0];
    assert b == b[..j] + [a[0]] + b[j + 1..];
    var rest := b[..j] + b[j + 1..];
    assert multiset(rest) == multiset(b[..j]) + multiset(b[j + 1..]);
    assert multiset(b) == multiset(b[..j]) + multiset([a[0]]) + multiset(b[j + 1..]);
    assert multiset(a) == multiset([a[0]]) + multiset(a[1..]);
    assert multiset(a[1..]) == multiset(a) - multiset([a[0]]);
    assert multiset(rest) == multiset(b) - multiset([a[0]]);
  }

  /** Sanitising carries a permutation over. */
  lemma {:induction false} PermutedStripped(a: seq<Json>, b: seq<Json>, file: string -> bool)
    requires multiset(a) == multiset(b)
    ensures multiset(StrippedItems(a, file)) == multiset(StrippedItems(b, file))
    decreases |a|
  {
    hide Stripped, StrippedItems;
    if a == [] {
      assert |multiset(b)| == |b|;
      assert b == [];
    } else {
      var j := Occurrence(a, b);
      PermutedStripped(a[1..], b[..j] + b[j + 1..], file);
      StrippedMiddle([], a[0], a[1..], file);
      StrippedMiddle(b[..j], a[0], b[j + 1..], file);
      assert [] + [a[0]] + a[1..] == a;
      assert [] + a[1..] == a[1..];
    }
  }

  lemma PermutedCleanable(a: seq<Json>, b: seq<Json>, file: string -> bool)
    requires multiset(a) == multiset(b) && forall i :: 0 <= i < |a| ==> Cleanable(a[i], file)
    ensures forall i :: 0 <= i < |b| ==> Cleanable(b[i], file)
  {
    hide Cleanable;
    forall i | 0 <= i < |b| ensures Cleanable(b[i], file) {
      assert b[i] in multiset(b);
      assert b[i] in multiset(a);
    }
  }

  lemma TrimmedReordered(v: Json, w: Json)
    requires Reordered(v, w) && v.Get(METADATA).Obj? && w.Get(METADATA).Obj?
    ensures Reordered(Trimmed(v), Trimmed(w))
  {
    KeysDistinct();
    hide SameNodeLists;
    assert METADATA in v.fields && METADATA in w.fields;
    assert v.fields[METADATA] == w.fields[METADATA];
    assert Trimmed(v).Get(COMPONENTS) == v.Get(COMPONENTS) && Trimmed(w).Get(COMPONENTS) == w.Get(COMPONENTS);
    assert Trimmed(v).Get(DEPENDENCIES) == v.Get(DEPENDENCIES) && Trimmed(w).Get(DEPENDENCIES) == w.Get(DEPENDENCIES);
  }

  lemma CleanableParts(v: Json, file: string -> bool)
    requires v.Obj? && Cleanable(v, file)
    ensures forall k :: k in v.fields && k != REFERENCES ==> Cleanable(v.fields[k], file)
  {
    forall k | k in v.fields && k != REFERENCES ensures Cleanable(v.fields[k], file) {
      assert CleanableField(k, v.fields[k], file);
    }
  }

  lemma PermutedPart(v: Json, w: Json, file: string -> bool)
    requires Permuted(v, w)
    ensures Permuted(Stripped(v, file), Stripped(w, file)) && (Cleanable(v, file) ==> Cleanable(w, file))
  {
    if v != w {
      PermutedStripped(v.items, w.items, file);
      if Cleanable(v, file) {
        PermutedCleanable(v.items, w.items, file);
      }
    }
  }

  lemma RearrangedPart(v: Json, w: Json, file: string -> bool)
    requires Rearranged(v, w)
    ensures Rearranged(Stripped(v, file), Stripped(w, file)) && (Cleanable(v, file) ==> Cleanable(w, file))
  {
    if v != w {
      SameListsStripped(v.items, w.items, file);
      if Cleanable(v, file) {
        TwinCleanable(v.items, w.items, file);
      }
      hide SameNodeLists;
    }
  }

  lemma ReorderedCleanable(v: Json, w: Json, file: string -> bool)
    requires Reordered(v, w) && Cleanable(v, file)
    ensures Cleanable(w, file)
  {
    KeysDistinct();
    CleanableParts(v, file);
    PermutedPart(v.Get(COMPONENTS), w.Get(COMPONENTS), file);
    RearrangedPart(v.Get(DEPENDENCIES), w.Get(DEPENDENCIES), file);
    hide SameNodeLists, Permuted, Rearranged, Recognized;
    forall k | k in w.fields ensures CleanableField(k, w.fields[k], file)
      && (k == REFERENCES ==> ReferencesFine(w.fields[k])) {
      if k == COMPONENTS || k == DEPENDENCIES {
        assert Cleanable(v.Get(k), file);
      } else {
        assert CleanableField(k, v.fields[k], file);
      }
    }
  }

  lemma ReorderedStripped(v: Json, w: Json, file: string -> bool)
    requires Reordered(v, w)
    ensures Reordered(Stripped(v, file), Stripped(w, file))
  {
    KeysDistinct();
    PermutedPart(v.Get(COMPONENTS), w.Get(COMPONENTS), file);
    RearrangedPart(v.Get(DEPENDENCIES), w.Get(DEPENDENCIES), file);
    StrippedKey(v.fields, COMPONENTS, file);
    StrippedKey(w.fields, COMPONENTS, file);
    StrippedKey(v.fields, DEPENDENCIES, file);
    StrippedKey(w.fields, DEPENDENCIES, file);
    StrippedElsewhere(v, w, file);
    hide SameNodeLists, Stripped, SameElsewhere;
  }

  lemma StrippedElsewhere(v: Json, w: Json, file: string -> bool)
    requires SameElsewhere(v, w)
    ensures SameElsewhere(Stripped(v, file), Stripped(w, file))
  {
    var a, b := Stripped(v, file).fields, Stripped(w, file).fields;
    forall k | k in a && k != COMPONENTS && k != DEPENDENCIES ensures a[k] == b[k] {
      assert a[k] == StrippedField(k, v.fields[k], file) && b[k] == StrippedField(k, w.fields[k], file);
    }
  }

  lemma HeadedReordered(v: Json, w: Json, s: Setting)
    requires Reordered(v, w) && Headed(v, s)
    ensures Headed(w, s)
  {
    HeadKeys();
    KeysDistinct();
    hide Permuted, Rearranged, PythonEqual;
    assert v.Get("bomFormat") == w.Get("bomFormat") && v.Get("specVersion") == w.Get("specVersion");
    assert v.Get("version") == w.Get("version") && v.Get(METADATA) == w.Get(METADATA);
  }

  lemma DocumentReordered(v: Json, w: Json, s: Setting)
    requires Reordered(v, w) && Headed(v, s) && Cleanable(Trimmed(v), s.file)
    ensures Headed(w, s) && Cleanable(Trimmed(w), s.file) && Reordered(Document(v, s), Document(w, s))
  {
    HeadedReordered(v, w, s);
    assert v.Get(METADATA).Obj? && w.Get(METADATA).Obj?;
    hide Reordered, Headed, Cleanable, Stripped, Trimmed;
    TrimmedReordered(v, w);
    ReorderedCleanable(Trimmed(v), Trimmed(w), s.file);
    ReorderedStripped(Trimmed(v), Trimmed(w), s.file);
  }

  // ----- assembling -----

  lemma SameNodeListsReflexive(a: seq<Json>)
    ensures SameNodeLists(a, a)
  {
    hide SimilarField;
    forall i | 0 <= i < |a| ensures HasTwin(a[i], a) {
      assert Similar(a[i], a[i]);
    }
  }

  lemma ItemsReordered(v: Json, w: Json, p: Project)
    requires Reordered(v, w) && Assemblable(v, p)
    ensures w.Get(COMPONENTS).Arr? && w.Get(DEPENDENCIES).Arr?
    ensures multiset(ItemsOf(v, COMPONENTS)) == multiset(ItemsOf(w, COMPONENTS))
    ensures SameNodeLists(ItemsOf(v, DEPENDENCIES), ItemsOf(w, DEPENDENCIES))
  {
    SameNodeListsReflexive(ItemsOf(v, DEPENDENCIES));
    hide ComponentsFine, Acceptable, SameNodeLists;
  }

  lemma ComponentsReordered(a: seq<Json>, b: seq<Json>, p: Project)
    requires multiset(a) == multiset(b) && ComponentsFine(a, p)
    ensures ComponentsFine(b, p) && AliasesOf(Projects(a, p), p) == AliasesOf(Projects(b, p), p)
    ensures Catalogue(a, p).Keys == Catalogue(b, p).Keys
  {
    hide *;
    PermutedFine(a, b, p);
    PermutedReferencedToo(a, b, p);
    PermutedCatalogue(a, b, p);
  }

  lemma PermutedReferencedToo(a: seq<Json>, b: seq<Json>, p: Project)
    requires ComponentsFine(a, p) && ComponentsFine(b, p)
    ensures AllReferenced(a) && AllReferenced(b)
  {
  }

  lemma AssemblableReordered(v: Json, w: Json, p: Project)
    requires Reordered(v, w) && Assemblable(v, p)
    ensures Assemblable(w, p) && DocumentNodes(w, p) == DocumentNodes(v, p)
  {
    ItemsReordered(v, w, p);
    assert w.Obj?;
    hide ComponentsFine, Acceptable, SameNodeLists, Permuted, Rearranged, Catalogue, Projects, AliasesOf, Collected,
      AllReferenced, ItemsOf, SameElsewhere, AllNodes;
    var a, b := ItemsOf(v, COMPONENTS), ItemsOf(w, COMPONENTS);
    ComponentsReordered(a, b, p);
    PermutedReferencedToo(a, b, p);
    assert DocumentAliases(v, p) == DocumentAliases(w, p);
    SameNodesSameGraph(ItemsOf(v, DEPENDENCIES), ItemsOf(w, DEPENDENCIES), DocumentAliases(v, p), Catalogue(a, p).Keys);
  }

  lemma ReplacedBoth(v: Json, w: Json, x: Json, y: Json, d: Json)
    requires SameElsewhere(v, w) && COMPONENTS in v.fields && DEPENDENCIES in v.fields
    ensures w.fields[COMPONENTS := y][DEPENDENCIES := d]
      == v.fields[COMPONENTS := x][DEPENDENCIES := d][COMPONENTS := y]
  {
    KeysDistinct();
  }

  lemma AssembledReordered(v: Json, w: Json, p: Project)
    requires Reordered(v, w) && Assemblable(v, p) && Assemblable(w, p)
    ensures COMPONENTS in Assembled(v, p).fields
    ensures Assembled(w, p).fields ==
      Assembled(v, p).fields[COMPONENTS := Arr(Listed(Catalogue(ItemsOf(w, COMPONENTS), p)))]
  {
    AssemblableReordered(v, w, p);
    AssembledParts(v, p);
    hide ComponentsFine, Acceptable, Permuted, Rearranged, Catalogue, DocumentNodes, Listed, Written, SameElsewhere,
      ItemsOf, Assemblable;
    ReplacedBoth(v, w, Arr(Listed(Catalogue(ItemsOf(v, COMPONENTS), p))),
      Arr(Listed(Catalogue(ItemsOf(w, COMPONENTS), p))),
      Arr(Written(DocumentNodes(v, p))));
  }

  lemma AssembledParts(v: Json, p: Project)
    requires Assemblable(v, p)
    ensures v.Obj? && COMPONENTS in v.fields && DEPENDENCIES in v.fields && ComponentsFine(ItemsOf(v, COMPONENTS), p)
    ensures SameNodes(DocumentNodes(v, p))
  {
    hide ComponentsFine, Acceptable;
  }

  lemma {:induction false} NormItemsAt(items: seq<Json>)
    ensures forall i :: 0 <= i < |items| ==> NormItems(items)[i] == Norm(items[i])
  {
    hide Norm;
    if items != [] {
      NormItemsAt(items[1..]);
    }
  }

  lemma EqualLists(a: seq<Json>, b: seq<Json>)
    requires |a| == |b| && forall i :: 0 <= i < |a| ==> PythonEqual(a[i], b[i])
    ensures PythonEqual(Arr(a), Arr(b))
  {
    NormItemsAt(a);
    NormItemsAt(b);
    NormOfList(a);
    NormOfList(b);
    hide Norm, NormItems;
    assert NormItems(a) == NormItems(b);
  }

  /** Catalogues with the same names and equal components are listed alike. */
  lemma ListedEqual(m: map<string, Json>, n: map<string, Json>)
    requires m.Keys == n.Keys && forall r :: r in m ==> PythonEqual(m[r], n[r])
    ensures PythonEqual(Arr(Listed(m)), Arr(Listed(n)))
  {
    var order := SortedStrings(m.Keys);
    ListedInAt(m, order);
    ListedInAt(n, order);
    var a, b := Listed(m), Listed(n);
    hide ListedIn, PythonEqual, Listed, Ascending;
    forall i | 0 <= i < |a| ensures PythonEqual(a[i], b[i]) {
      assert order[i] in m;
    }
    EqualLists(a, b);
  }

  lemma NormOfList(a: seq<Json>)
    ensures Norm(Arr(a)) == Arr(NormItems(a))
  {
  }

  lemma NormOfReplaced(f: map<string, Json>, key: string, v: Json)
    requires key in f && PythonEqual(f[key], v)
    ensures PythonEqual(Obj(f), Obj(f[key := v]))
  {
    assert Norm(Obj(f)).fields == Norm(Obj(f[key := v])).fields;
  }

  lemma CataloguesEqual(a: seq<Json>, b: seq<Json>, p: Project)
    requires multiset(a) == multiset(b) && ComponentsFine(a, p) && ComponentsFine(b, p)
    ensures PythonEqual(Arr(Listed(Catalogue(a, p))), Arr(Listed(Catalogue(b, p))))
  {
    hide *;
    PermutedReferencedToo(a, b, p);
    PermutedCatalogue(a, b, p);
    var m, n := Catalogue(a, p), Catalogue(b, p);
    ReplacedEqual(m, p.Reference(), KeptProject(b, p));
    ListedEqual(m, n);
  }

  lemma ReplacedEqual(m: map<string, Json>, key: string, v: Json)
    requires key in m && PythonEqual(m[key], v)
    ensures m.Keys == m[key := v].Keys && forall r :: r in m ==> PythonEqual(m[r], m[key := v][r])
  {
    hide Norm;
  }

  lemma AssembledEqual(v: Json, w: Json, p: Project)
    requires Reordered(v, w) && Assemblable(v, p) && Assemblable(w, p)
    ensures PythonEqual(Assembled(v, p), Assembled(w, p))
    ensures SameBodies(ItemsOf(v, COMPONENTS), p) ==> Assembled(v, p) == Assembled(w, p)
  {
    ItemsReordered(v, w, p);
    AssembledReordered(v, w, p);
    KeysDistinct();
    var a, b := ItemsOf(v, COMPONENTS), ItemsOf(w, COMPONENTS);
    assert Assembled(v, p).fields[COMPONENTS] == Arr(Listed(Catalogue(a, p)));
    hide Norm, ComponentsFine, Catalogue, Listed, Written, DocumentNodes, SameNodeLists, SameBodies, Acceptable,
      Assembled, Permuted, Rearranged;
    CataloguesEqual(a, b, p);
    NormOfReplaced(Assembled(v, p).fields, COMPONENTS, Arr(Listed(Catalogue(b, p))));
    if SameBodies(a, p) {
      SameBodiesSameCatalogue(a, b, p);
      Unreplaced(Assembled(v, p).fields, COMPONENTS);
    }
  }

  lemma Unreplaced(f: map<string, Json>, key: string)
    requires key in f
    ensures f[key := f[key]] == f
  {
  }

  /** The order of components, nodes and edges decides neither acceptance nor, up to Python's equality, the result;
    * and when all spellings of the project component agree, not even how the result is written.
    */
  lemma OrderDoesNotMatter(v: Json, w: Json, s: Setting)
    requires Reordered(v, w)
    ensures Accepts(v, s) <==> Accepts(w, s)
    ensures Accepts(v, s) ==> PythonEqual(Form(v, s), Form(w, s))
    ensures Accepts(v, s) && SameSpellings(v, s) ==> Form(v, s) == Form(w, s)
  {
    ReorderedSymmetric(v, w);
    hide Reordered, Cleanable, Trimmed, Headed, Assemblable, Assembled, NamesAllowed, PythonEqual, SameBodies, Document;
    if Accepts(v, s) {
      DocumentReordered(v, w, s);
      AssemblableReordered(Document(v, s), Document(w, s), s.project);
      AssembledEqual(Document(v, s), Document(w, s), s.project);
    } else if Accepts(w, s) {
      DocumentReordered(w, v, s);
      AssemblableReordered(Document(w, s), Document(v, s), s.project);
    }
  }

  ghost predicate SameSpellings(v: Json, s: Setting)
    requires Accepts(v, s)
  {
    SameBodies(ItemsOf(Document(v, s), COMPONENTS), s.project)
  }

  // ----- when the order matters -----

  lemma {:induction false} StrippedMoved(items: seq<Json>, i: nat, file: string -> bool)
    requires i < |items|
    ensures i < |StrippedItems(items, file)|
    ensures StrippedItems(MovedToFront(items, i), file) == MovedToFront(StrippedItems(items, file), i)
  {
    StrippedAt(items, file);
    StrippedAt(MovedToFront(items, i), file);
    hide Stripped, StrippedItems;
  }

  function WithComponents(v: Json, items: seq<Json>): Json
    requires v.Obj?
  {
    Obj(v.fields[COMPONENTS := Arr(items)])
  }

  lemma WithComponentsReordered(v: Json, items: seq<Json>)
    requires v.Obj? && v.Get(COMPONENTS).Arr? && multiset(v.Get(COMPONENTS).items) == multiset(items)
    ensures Reordered(v, WithComponents(v, items))
  {
    KeysDistinct();
    assert COMPONENTS in v.fields;
    hide SameNodeLists;
  }

  lemma DocumentComponents(v: Json, s: Setting)
    requires v.Obj? && v.Get(METADATA).Obj? && COMPONENTS in v.fields
    ensures Document(v, s).Get(COMPONENTS) == Stripped(v.fields[COMPONENTS], s.file)
  {
    KeysDistinct();
    StrippedKey(Trimmed(v).fields, COMPONENTS, s.file);
    assert Trimmed(v).Get(COMPONENTS) == v.fields[COMPONENTS];
    hide Stripped, Trimmed;
  }

  lemma StrippedList(v: Json, file: string -> bool)
    requires Stripped(v, file).Arr?
    ensures v.Arr? && Stripped(v, file).items == StrippedItems(v.items, file)
  {
  }

  /** The document with the component at position i moved to the front, and what that does to the sanitised one. */
  lemma DocumentMoved(v: Json, s: Setting, i: nat) returns (w: Json)
    requires v.Obj? && v.Get(METADATA).Obj? && Document(v, s).Get(COMPONENTS).Arr?
      && i < |ItemsOf(Document(v, s), COMPONENTS)|
    ensures Reordered(v, w) && w.Get(METADATA).Obj?
    ensures ItemsOf(Document(w, s), COMPONENTS) == MovedToFront(ItemsOf(Document(v, s), COMPONENTS), i)
  {
    KeysDistinct();
    DocumentHasComponents(v, s);
    DocumentComponents(v, s);
    var raw := v.fields[COMPONENTS];
    StrippedList(raw, s.file);
    StrippedMoved(raw.items, i, s.file);
    w := WithComponents(v, MovedToFront(raw.items, i));
    assert w.Get(METADATA) == v.Get(METADATA);
    WithComponentsReordered(v, MovedToFront(raw.items, i));
    DocumentComponents(w, s);
    StrippedArray(MovedToFront(raw.items, i), s.file);
    hide Reordered, Document, Stripped, StrippedItems, MovedToFront;
  }

  lemma StrippedArray(items: seq<Json>, file: string -> bool)
    ensures Stripped(Arr(items), file) == Arr(StrippedItems(items, file))
  {
  }

  lemma DocumentHasComponents(v: Json, s: Setting)
    requires v.Obj? && v.Get(METADATA).Obj? && Document(v, s).Get(COMPONENTS).Arr?
    ensures COMPONENTS in v.fields
  {
    KeysDistinct();
    StrippedKey(Trimmed(v).fields, COMPONENTS, s.file);
    hide Stripped;
  }

  lemma DifferentCatalogues(v: Json, w: Json, p: Project)
    requires Assemblable(v, p) && Assemblable(w, p)
    requires Catalogue(ItemsOf(v, COMPONENTS), p) != Catalogue(ItemsOf(w, COMPONENTS), p)
    ensures Assembled(v, p) != Assembled(w, p)
  {
    KeysDistinct();
    AssembledParts(v, p);
    AssembledParts(w, p);
    AssembledComponents(v, p);
    AssembledComponents(w, p);
    hide *;
    var a, b := ItemsOf(v, COMPONENTS), ItemsOf(w, COMPONENTS);
    CatalogueKeyed(a, p);
    CatalogueKeyed(b, p);
    ListedReadsBack(Catalogue(a, p));
    ListedReadsBack(Catalogue(b, p));
  }

  lemma AssembledComponents(v: Json, p: Project)
    requires Assemblable(v, p)
    ensures Assembled(v, p).Get(COMPONENTS) == Arr(Listed(Catalogue(ItemsOf(v, COMPONENTS), p)))
  {
    KeysDistinct();
    hide ComponentsFine, Acceptable, Written, Listed, Catalogue, DocumentNodes, ItemsOf;
  }

  lemma CatalogueKeyed(cs: seq<Json>, p: Project)
    requires ComponentsFine(cs, p)
    ensures KeyedByReference(Catalogue(cs, p))
  {
    ByReferenceKeyed(MergedComponents(cs, p));
  }

  lemma SpellingsShow(v: Json, s: Setting) returns (w: Json)
    requires Accepts(v, s) && !SameSpellings(v, s)
    ensures Reordered(v, w) && Accepts(w, s) && Form(w, s) != Form(v, s)
  {
    assert v.Obj? && v.Get(METADATA).Obj?;
    var doc := Document(v, s);
    var i := DifferentSpellings(ItemsOf(doc, COMPONENTS), s.project);
    assert doc.Get(COMPONENTS).Arr?;
    hide ComponentsFine, Reordered, Cleanable, Trimmed, Headed, Assembled, NamesAllowed, PythonEqual, SameBodies,
      Document, Catalogue, Acceptable, MovedToFront, ItemsOf;
    w := DocumentMoved(v, s, i);
    OrderDoesNotMatter(v, w, s);
    DifferentCatalogues(doc, Document(w, s), s.project);
  }

  /** Every order gives exactly the same result if and only if all spellings of the project component agree. */
  lemma OrderMattersOnlyForSpellings(v: Json, s: Setting)
    requires Accepts(v, s)
    ensures SameSpellings(v, s) <==> forall w :: Reordered(v, w) ==> Accepts(w, s) && Form(w, s) == Form(v, s)
  {
    hide Reordered, Accepts, Form, SameSpellings;
    if SameSpellings(v, s) {
      forall w | Reordered(v, w) ensures Accepts(w, s) && Form(w, s) == Form(v, s) {
        OrderDoesNotMatter(v, w, s);
      }
    } else {
      var w := SpellingsShow(v, s);
    }
  }
}
