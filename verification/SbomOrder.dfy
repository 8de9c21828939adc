/** Permuting dependency nodes or edge lists changes nothing (scripts/generate_sbom.py:201-254). */
module SbomOrder {
  import opened CycloneDx
  import opened Digraph
  import opened Json
  import opened SbomGraph
  import opened SbomSanitizing

  // ----- the same nodes in another order -----

  ghost predicate SameItems(v: Json, w: Json) {
    v.Arr? && w.Arr? && forall x :: x in v.items <==> x in w.items
  }

  ghost predicate SimilarField(key: string, v: Json, w: Json) {
    v == w || ((key == DEPENDS_ON || key == PROVIDES) && SameItems(v, w))
  }

  /** The two differ at most in the order, or the repetition, of the entries of their edge lists. */
  ghost predicate Similar(d: Json, e: Json) {
    || d == e
    || (d.Obj? && e.Obj? && d.fields.Keys == e.fields.Keys
      && forall k :: k in d.fields ==> SimilarField(k, d.fields[k], e.fields[k]))
  }

  ghost predicate HasTwin(d: Json, deps: seq<Json>) {
    exists j :: 0 <= j < |deps| && Similar(d, deps[j])
  }

  /** The same nodes up to similarity, in any order. */
  ghost predicate SameNodeLists(a: seq<Json>, b: seq<Json>) {
    && (forall i :: 0 <= i < |a| ==> HasTwin(a[i], b))
    && (forall j :: 0 <= j < |b| ==> HasTwin(b[j], a))
  }

  lemma SimilarSymmetric(d: Json, e: Json)
    requires Similar(d, e)
    ensures Similar(e, d)
  {
    if d != e {
      forall k | k in e.fields ensures SimilarField(k, e.fields[k], d.fields[k]) {
        assert SimilarField(k, d.fields[k], e.fields[k]);
      }
    }
  }

  lemma SimilarNames(v: Json, w: Json)
    requires v == w || SameItems(v, w)
    ensures NamesOnly(v) <==> NamesOnly(w)
  {
  }

  lemma SimilarNodes(d: Json, e: Json)
    requires Similar(d, e) && IsNode(d)
    ensures IsNode(e) && RefOf(e) == RefOf(d)
    ensures forall f :: Edges(e, f) == Edges(d, f)
  {
    if d != e {
      KeysDiffer();
      assert SimilarField(REF, d.fields[REF], e.fields[REF]);
      forall f ensures EdgeList(d, Key(f)) == EdgeList(e, Key(f))
        || SameItems(EdgeList(d, Key(f)), EdgeList(e, Key(f))) {
        assert Key(f) in d.fields ==> SimilarField(Key(f), d.fields[Key(f)], e.fields[Key(f)]);
      }
      SimilarNames(EdgeList(d, Key(DependsOn)), EdgeList(e, Key(DependsOn)));
      SimilarNames(EdgeList(d, Key(Provides)), EdgeList(e, Key(Provides)));
    }
  }

  lemma TwinsAreNodes(a: seq<Json>, b: seq<Json>)
    requires SameNodeLists(a, b) && AllNodes(a)
    ensures AllNodes(b)
  {
    hide IsNode, Similar;
    forall j | 0 <= j < |b| ensures IsNode(b[j]) {
      assert HasTwin(b[j], a);
      var i :| 0 <= i < |a| && Similar(b[j], a[i]);
      SimilarSymmetric(b[j], a[i]);
      SimilarNodes(a[i], b[j]);
    }
  }

  lemma SameImages(d: Json, e: Json, f: Field, aliases: Aliases)
    requires IsNode(d) && IsNode(e) && RefOf(d) == RefOf(e) && Edges(d, f) == Edges(e, f)
    ensures Images(d, f, aliases) == Images(e, f, aliases)
  {
    hide IsNode, RefOf, Edges;
  }

  lemma TwinContributes(a: seq<Json>, b: seq<Json>, i: nat, f: Field, aliases: Aliases) returns (j: nat)
    requires SameNodeLists(a, b) && AllNodes(a) && AllNodes(b) && i < |a|
    ensures j < |b| && RefOf(b[j]) == RefOf(a[i]) && Images(b[j], f, aliases) == Images(a[i], f, aliases)
  {
    hide IsNode, RefOf, Edges, Similar;
    assert HasTwin(a[i], b);
    j :| 0 <= j < |b| && Similar(a[i], b[j]);
    SimilarNodes(a[i], b[j]);
    assert Edges(b[j], f) == Edges(a[i], f);
    SameImages(a[i], b[j], f, aliases);
  }

  lemma TwinsInclude(a: seq<Json>, b: seq<Json>, f: Field, aliases: Aliases, u: string, v: string)
    requires SameNodeLists(a, b) && AllNodes(a) && AllNodes(b)
    ensures u in Merged(a, f, aliases) ==> u in Merged(b, f, aliases)
    ensures Arrow(Merged(a, f, aliases), u, v) ==> Arrow(Merged(b, f, aliases), u, v)
  {
    MergedNode(a, f, aliases, u);
    MergedNode(b, f, aliases, u);
    MergedEdge(a, f, aliases, u, v);
    MergedEdge(b, f, aliases, u, v);
    hide Merged, SameNodeLists, IsNode, RefOf, Images;
    if u in Merged(a, f, aliases) {
      var i :| 0 <= i < |a| && Alias(aliases, RefOf(a[i])) == u;
      var j := TwinContributes(a, b, i, f, aliases);
    }
    if Arrow(Merged(a, f, aliases), u, v) {
      var i :| 0 <= i < |a| && Contributes(a[i], f, aliases, u, v);
      var j := TwinContributes(a, b, i, f, aliases);
      assert Contributes(b[j], f, aliases, u, v);
    }
  }

  lemma SameListsSymmetric(a: seq<Json>, b: seq<Json>)
    requires SameNodeLists(a, b)
    ensures SameNodeLists(b, a)
  {
  }

  lemma SameMerged(a: seq<Json>, b: seq<Json>, f: Field, aliases: Aliases)
    requires SameNodeLists(a, b) && AllNodes(a) && AllNodes(b)
    ensures Merged(a, f, aliases) == Merged(b, f, aliases)
  {
    SameListsSymmetric(a, b);
    hide SameNodeLists, Merged, IsNode, Arrow;
    var g, h := Merged(a, f, aliases), Merged(b, f, aliases);
    forall u ensures u in g <==> u in h {
      TwinsInclude(a, b, f, aliases, u, u);
      TwinsInclude(b, a, f, aliases, u, u);
    }
    forall u, v ensures Arrow(g, u, v) <==> Arrow(h, u, v) {
      TwinsInclude(a, b, f, aliases, u, v);
      TwinsInclude(b, a, f, aliases, u, v);
    }
    GraphsEqual(g, h);
  }

  /** The order of the nodes and of their edges does not matter. */
  lemma SameNodesSameGraph(a: seq<Json>, b: seq<Json>, aliases: Aliases, components: set<string>)
    requires SameNodeLists(a, b)
    ensures AllNodes(a) <==> AllNodes(b)
    ensures AllNodes(a) ==> Collected(a, aliases) == Collected(b, aliases)
    ensures Acceptable(a, aliases, components) <==> Acceptable(b, aliases, components)
  {
    SameListsSymmetric(a, b);
    hide SameNodeLists, Merged, IsNode, Complete;
    if AllNodes(a) {
      TwinsAreNodes(a, b);
      SameMerged(a, b, DependsOn, aliases);
      SameMerged(a, b, Provides, aliases);
    } else if AllNodes(b) {
      TwinsAreNodes(b, a);
    }
  }

  // ----- sanitising keeps similarity -----

  lemma {:induction false} StrippedAt(items: seq<Json>, file: string -> bool)
    ensures forall i :: 0 <= i < |items| ==> StrippedItems(items, file)[i] == Stripped(items[i], file)
  {
    hide Stripped;
    if items != [] {
      StrippedAt(items[1..], file);
    }
  }

  lemma SameItemsStripped(v: Json, w: Json, file: string -> bool)
    requires SameItems(v, w)
    ensures SameItems(Arr(StrippedItems(v.items, file)), Arr(StrippedItems(w.items, file)))
  {
    StrippedAt(v.items, file);
    StrippedAt(w.items, file);
    hide StrippedItems, Stripped;
    var a, b := StrippedItems(v.items, file), StrippedItems(w.items, file);
    forall x | x in a ensures x in b {
      var i :| 0 <= i < |a| && a[i] == x;
      assert v.items[i] in w.items;
      var j :| 0 <= j < |w.items| && w.items[j] == v.items[i];
      assert b[j] == x;
    }
    forall x | x in b ensures x in a {
      var i :| 0 <= i < |b| && b[i] == x;
      assert w.items[i] in v.items;
      var j :| 0 <= j < |v.items| && v.items[j] == w.items[i];
      assert a[j] == x;
    }
  }

  lemma SameItemsCleanable(v: Json, w: Json, file: string -> bool)
    requires SameItems(v, w) && Cleanable(v, file)
    ensures Cleanable(w, file)
  {
    forall j | 0 <= j < |w.items| ensures Cleanable(w.items[j], file) {
      assert w.items[j] in v.items;
    }
  }

  lemma SimilarFieldStripped(key: string, v: Json, w: Json, file: string -> bool)
    requires SimilarField(key, v, w)
    ensures SimilarField(key, StrippedField(key, v, file), StrippedField(key, w, file))
    ensures CleanableField(key, v, file) ==> CleanableField(key, w, file)
  {
    if v != w {
      assert REFERENCES != DEPENDS_ON && REFERENCES != PROVIDES by { assert |REFERENCES| == 18; }
      SameItemsStripped(v, w, file);
      if Cleanable(v, file) {
        SameItemsCleanable(v, w, file);
      }
    }
  }

  lemma SimilarStripped(d: Json, e: Json, file: string -> bool)
    requires Similar(d, e)
    ensures Similar(Stripped(d, file), Stripped(e, file))
    ensures Cleanable(d, file) ==> Cleanable(e, file)
  {
    if d != e {
      assert REFERENCES != DEPENDS_ON && REFERENCES != PROVIDES by { assert |REFERENCES| == 18; }
      forall k | k in d.fields
        ensures SimilarField(k, StrippedField(k, d.fields[k], file), StrippedField(k, e.fields[k], file))
        ensures CleanableField(k, d.fields[k], file) ==> CleanableField(k, e.fields[k], file)
        ensures k == REFERENCES ==> d.fields[k] == e.fields[k]
      {
        assert SimilarField(k, d.fields[k], e.fields[k]);
        SimilarFieldStripped(k, d.fields[k], e.fields[k], file);
      }
      hide SimilarField, CleanableField, StrippedField, ReferencesFine;
    }
  }

  /** Sanitising keeps two lists of nodes the same up to order. */
  lemma SameListsStripped(a: seq<Json>, b: seq<Json>, file: string -> bool)
    requires SameNodeLists(a, b)
    ensures SameNodeLists(StrippedItems(a, file), StrippedItems(b, file))
  {
    hide Stripped, StrippedItems, HasTwin;
    TwinStripped(a, b, file);
    TwinStripped(b, a, file);
  }

  lemma TwinStripped(a: seq<Json>, b: seq<Json>, file: string -> bool)
    requires forall i :: 0 <= i < |a| ==> HasTwin(a[i], b)
    ensures forall i :: 0 <= i < |a| ==> HasTwin(StrippedItems(a, file)[i], StrippedItems(b, file))
  {
    StrippedAt(a, file);
    StrippedAt(b, file);
    hide Stripped, StrippedItems, Similar;
    forall i | 0 <= i < |a| ensures HasTwin(StrippedItems(a, file)[i], StrippedItems(b, file)) {
      assert HasTwin(a[i], b);
      var j :| 0 <= j < |b| && Similar(a[i], b[j]);
      SimilarStripped(a[i], b[j], file);
      assert StrippedItems(b, file)[j] == Stripped(b[j], file);
    }
  }

  /** Sanitising accepts either of two such lists or neither. */
  lemma TwinCleanable(a: seq<Json>, b: seq<Json>, file: string -> bool)
    requires SameNodeLists(a, b) && forall i :: 0 <= i < |a| ==> Cleanable(a[i], file)
    ensures forall j :: 0 <= j < |b| ==> Cleanable(b[j], file)
  {
    hide Similar, Cleanable;
    forall j | 0 <= j < |b| ensures Cleanable(b[j], file) {
      assert HasTwin(b[j], a);
      var i :| 0 <= i < |a| && Similar(b[j], a[i]);
      SimilarSymmetric(b[j], a[i]);
      SimilarStripped(a[i], b[j], file);
    }
  }
}
