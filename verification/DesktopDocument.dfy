/** The combined desktop SBOM as a document (scripts/assemble_desktop_release.py:603-622): a root of its own above those
  * of the targets.
  */
module DesktopDocument {
  import opened CycloneDx
  import opened DesktopAggregate
  import opened DesktopMeaning
  import opened DesktopSbom
  import opened Json
  import SbomMeaning
  import opened Sorting
  import opened Wrappers

  function RootComponent(version: string): Json {
    Obj(map[
      "type" := Str("application"),
      "name" := Str("AncestryLLM Desktop"),
      "version" := Str(version),
      "bom-ref" := Str(AggregateReference(version))
    ])
  }

  function Strings(names: seq<string>): (r: seq<Json>)
    ensures |r| == |names| && forall i :: 0 <= i < |r| ==> r[i] == Str(names[i])
  {
    seq(|names|, i requires 0 <= i < |names| => Str(names[i]))
  }

  /** The roots of the targets differ, so that sorting them is listing the set in order. */
  function RootNode(version: string, roots: seq<string>): Json {
    Obj(map["ref" := Str(AggregateReference(version)), "dependsOn" := Arr(Strings(SortedStrings(Names(roots))))])
  }

  /** `combined_sbom` */
  function Document(c: Combined, version: string): Json {
    Obj(map[
      "bomFormat" := Str("CycloneDX"),
      "specVersion" := Str("1.6"),
      "version" := Int(1),
      "metadata" := Obj(map["component" := RootComponent(version)]),
      "components" := Arr(c.components),
      "dependencies" := Arr([RootNode(version, c.roots)] + c.dependencies)
    ])
  }

  // ----- the nodes of all targets together -----

  /** The nodes are well-formed, have different references, which are these, and stay among the names. */
  ghost predicate NodesOver(ds: seq<Json>, refs: set<string>, names: set<string>) {
    DependenciesFine(ds, names) && Names(Refs(ds)) == refs
  }

  lemma CopiedStaysInside(d: Json, target: string, names: set<string>)
    requires GoodNode(d) && Inside(d, names)
    ensures GoodNode(CopiedNode(d, target)) && Inside(CopiedNode(d, target), TargetRefs(target, names))
  {
    CopiedNodeReads(d, target);
    forall f, v ensures v in Related(CopiedNode(d, target), f) <==>
      exists b :: b in Related(d, f) && v == TargetRef(target, b) {
      CopiedRelated(d, target, f, v);
    }
    hide GoodNode, CopiedNode, RefOf, Related, TargetRef;
  }

  lemma CopiedNodesOver(ds: seq<Json>, target: string, names: set<string>)
    requires DependenciesFine(ds, names) && IsTarget(target)
    ensures NodesOver(CopiedNodes(ds, target), TargetRefs(target, Names(Refs(ds))), TargetRefs(target, names))
  {
    hide GoodNode, CopiedNode, RefOf, Inside, TargetRef, Names, NoDuplicates;
    var copied := CopiedNodes(ds, target);
    forall i | 0 <= i < |ds|
      ensures GoodNode(copied[i]) && Inside(copied[i], TargetRefs(target, names))
      ensures RefOf(copied[i]) == TargetRef(target, RefOf(ds[i]))
    {
      CopiedStaysInside(ds[i], target, names);
      CopiedNodeReads(ds[i], target);
    }
    assert Refs(copied) == Prefixed(target, Refs(ds));
    PrefixedNames(target, Refs(ds));
  }

  lemma MoreNames(d: Json, names: set<string>, more: set<string>)
    requires GoodNode(d) && Inside(d, names) && names <= more
    ensures Inside(d, more)
  {
    hide GoodNode, RefOf, Related;
  }

  lemma NodesJoin(a: seq<Json>, b: seq<Json>, r: set<string>, q: set<string>, m: set<string>, n: set<string>)
    requires NodesOver(a, r, m) && NodesOver(b, q, n) && r !! q
    ensures NodesOver(a + b, r + q, m + n)
  {
    hide GoodNode, RefOf, Inside, Names, NoDuplicates;
    var c := a + b;
    forall i | 0 <= i < |c| ensures GoodNode(c[i]) && Inside(c[i], m + n) {
      if i < |a| {
        MoreNames(a[i], m, m + n);
      } else {
        MoreNames(b[i - |a|], n, m + n);
      }
    }
    assert Refs(c) == Refs(a) + Refs(b);
    NoDuplicatesAppend(Refs(a), Refs(b));
    NamesAppend(Refs(a), Refs(b));
  }

  lemma NoNodes()
    ensures NodesOver([], {}, {})
  {
  }

  lemma {:induction false} CombinedNodes(inputs: seq<Input>, version: string)
    requires AllFine(inputs, version) && Targets(inputs)
    ensures NodesOver(CombinedOf(inputs, version).dependencies, AllNodeNames(inputs, version),
      AllNames(inputs, version))
    decreases |inputs|
  {
    hide SbomFine, GoodNode, NodesOver, PartOf, IsTarget, Known, Names, Refs, TargetRef;
    if inputs == [] {
      NoNodes();
    } else {
      var n := |inputs| - 1;
      var front, last := inputs[..n], inputs[n];
      assert AllFine(front, version) && SbomFine(last.payload, version);
      assert Known(last.target) && Targets(front);
      CombinedNodes(front, version);
      TargetsHaveNoColon(last.target);
      OthersUntouched(front, version, last.target);
      PartNodes(last, version);
      var part := PartOf(last, version, {});
      assert AllNodeNames(front, version) !! part.nodes.references;
      NodesJoin(CombinedOf(front, version).dependencies, part.nodes.dependencies, AllNodeNames(front, version),
        part.nodes.references, AllNames(front, version), part.references);
    }
  }

  lemma PartNodes(input: Input, version: string)
    requires SbomFine(input.payload, version) && IsTarget(input.target)
    ensures
      var part := PartOf(input, version, {});
      NodesOver(part.nodes.dependencies, part.nodes.references, part.references)
    ensures forall x :: x in PartOf(input, version, {}).nodes.references ==> exists y :: x == TargetRef(input.target, y)
    ensures PartOf(input, version, {}).root in PartOf(input, version, {}).references
  {
    FineParts(input.payload, version);
    RootListed(input.payload);
    CopiedNodesOver(ListOf(input.payload, DEPENDENCIES), input.target, NamesOf(input.payload));
    hide AllWellFormed, ForestReferences, NoDuplicates, Names, CopiedAll, DependenciesFine, CopiedNodes, Refs,
      NodesOver,
      TargetRef, RootName, NamesOf, Headed, ObjectsOrAbsent;
  }

  lemma {:induction false} RootsInside(inputs: seq<Input>, version: string)
    requires AllFine(inputs, version) && Targets(inputs)
    ensures Names(CombinedOf(inputs, version).roots) <= AllNames(inputs, version)
    ensures NoDuplicates(CombinedOf(inputs, version).roots)
    ensures forall x :: x in AllNames(inputs, version) ==> x != AggregateReference(version) && x != ""
    ensures forall x :: x in AllNodeNames(inputs, version) ==> x != AggregateReference(version)
    decreases |inputs|
  {
    hide SbomFine, PartOf, IsTarget, Known, TargetRef, AggregateReference;
    if inputs != [] {
      var n := |inputs| - 1;
      var front, last := inputs[..n], inputs[n];
      assert AllFine(front, version) && SbomFine(last.payload, version);
      assert Known(last.target) && Targets(front);
      RootsInside(front, version);
      TargetsHaveNoColon(last.target);
      PartNodes(last, version);
      PartsJoin(last, version, {});
      OthersUntouched(front, version, last.target);
      var root := PartOf(last, version, {}).root;
      assert root !in AllNames(front, version);
      NamesAppend(CombinedOf(front, version).roots, [root]);
      NoDuplicatesAppend(CombinedOf(front, version).roots, [root]);
      forall y ensures TargetRef(last.target, y) != AggregateReference(version) && TargetRef(last.target, y) != "" {
        AggregateReferenceIsNew(version, last.target, y);
        NotEmpty(last.target, y);
      }
    }
  }

  lemma NotEmpty(target: string, x: string)
    ensures TargetRef(target, x) != "" && AggregateReference(target) != ""
  {
    assert |TargetRef(target, x)| > |x| && |AggregateReference(target)| > |target|;
  }

  lemma RootLists(version: string, roots: seq<string>)
    ensures
      var d, items := RootNode(version, roots), Strings(SortedStrings(Names(roots)));
      && d.Obj? && d.fields.Keys == {REF, DEPENDS_ON} && d.Get(REF) == Str(AggregateReference(version))
      && d.Get(DEPENDS_ON) == Arr(items) && PROVIDES !in d.fields
  {
    NodeKeysDiffer();
    hide Ascending;
  }

  lemma OrderedStrings(order: seq<string>)
    requires Ascending(StringLe, order)
    ensures SbomMeaning.InOrder(Strings(order)) && forall x :: x in order <==> Str(x) in Strings(order)
  {
    hide Ascending, SbomMeaning.Before;
    var items := Strings(order);
    forall x | x in order ensures Str(x) in items {
      var i :| 0 <= i < |order| && order[i] == x;
      assert items[i] == Str(x);
    }
    forall i, j, x, y | 0 <= i < j < |items| && items[i] == Str(x) && items[j] == Str(y)
      ensures SbomMeaning.Before(x, y)
    {
      SbomMeaning.AscendingAt(order, i, j);
      SbomMeaning.BeforeIff(x, y);
    }
  }

  lemma RootNodeReads(version: string, roots: seq<string>)
    requires "" !in Names(roots)
    ensures
      var d, own := RootNode(version, roots), AggregateReference(version);
      && GoodNode(d) && RefOf(d) == own
      && forall names :: own in names && Names(roots) <= names ==> Inside(d, names)
  {
    hide AggregateReference, Names, Ascending;
    var d, order := RootNode(version, roots), SortedStrings(Names(roots));
    NotEmpty(version, version);
    RootLists(version, roots);
    hide RootNode;
    forall x | x in Strings(order) ensures IsName(x) {
      var i :| 0 <= i < |order| && Strings(order)[i] == x;
      assert order[i] in order;
    }
    assert GoodNode(d);
    var related := Related(d, DependsOn);
    forall x | x in related ensures x in Names(roots) {
      var i :| 0 <= i < |related| && related[i] == x;
      assert order[i] in order;
    }
    assert Related(d, Provides) == [];
  }

  lemma RootNodeOver(version: string, roots: seq<string>, names: set<string>)
    requires "" !in Names(roots) && Names(roots) <= names && AggregateReference(version) in names
    ensures NodesOver([RootNode(version, roots)], {AggregateReference(version)}, names)
  {
    RootNodeReads(version, roots);
    hide GoodNode, RefOf, Inside, RootNode, AggregateReference;
    assert Refs([RootNode(version, roots)]) == [AggregateReference(version)];
  }

  // ----- the document -----

  lemma DocumentTrees(c: Combined, version: string)
    ensures
      var doc, root := Document(c, version), RootComponent(version);
      && HasRoot(doc) && IsRoot(doc, root) && TreesOf(doc, root) == [root] + c.components == Trees(doc)
      && ItemsAt(doc, "dependencies") == [RootNode(version, c.roots)] + c.dependencies
      && ForestReferences([root]) == [AggregateReference(version)]
  {
    var root := RootComponent(version);
    hide RootNode;
    FieldsDiffer();
    assert TreeReferences(root) == [AggregateReference(version)];
    assert [root][1..] == [];
  }

  lemma FieldsDiffer()
    ensures BOM_REF != COMPONENTS && METADATA != COMPONENTS && COMPONENTS != DEPENDENCIES && METADATA != DEPENDENCIES
  {
    assert |BOM_REF| == 7 && |METADATA| == 8 && |COMPONENTS| == 10 && |DEPENDENCIES| == 12;
  }

  /** The references of all components, and the nodes, of the combined document. */
  lemma DocumentFine(inputs: seq<Input>, version: string)
    requires AllFine(inputs, version) && Targets(inputs)
    ensures
      var doc := Document(CombinedOf(inputs, version), version);
      && HasRoot(doc) && NoDuplicates(ForestReferences(Trees(doc)))
      && DependenciesFine(ItemsAt(doc, "dependencies"), NamesOf(doc))
  {
    hide SbomFine, GoodNode, Names, NoDuplicates, ForestReferences, Refs, CombinedOf, Known, AllNames, AllNodeNames,
      RootNode, RootComponent, AggregateReference, DependenciesFine;
    var c := CombinedOf(inputs, version);
    var own, names, refs := AggregateReference(version), AllNames(inputs, version), AllNodeNames(inputs, version);
    var root := RootComponent(version);
    CombinedReferencesDistinct(inputs, version);
    CombinedNodes(inputs, version);
    RootsInside(inputs, version);
    DocumentTrees(c, version);
    ForestAppend([root], c.components);
    OneName(own);
    NoDuplicatesAppend([own], ForestReferences(c.components));
    NamesAppend([own], ForestReferences(c.components));
    RootNodeOver(version, c.roots, {own} + names);
    NodesJoin([RootNode(version, c.roots)], c.dependencies, {own}, refs, {own} + names, names);
    assert {own} + names + names == {own} + names;
  }

  lemma OneName(x: string)
    ensures NoDuplicates([x]) && Names([x]) == {x}
  {
  }

  /** The combined document is closed: no reference stands at two places in it, its own included, its nodes have
    * different references, and they mention only its components.
    */
  lemma DocumentIsClosed(inputs: seq<Input>, version: string)
    requires AllFine(inputs, version) && Targets(inputs)
    ensures
      var doc, root := Document(CombinedOf(inputs, version), version), RootComponent(version);
      && IsRoot(doc, root) && NamesDiffer(TreesOf(doc, root))
      && GraphGood(ItemsAt(doc, "dependencies"), TreesOf(doc, root))
  {
    hide SbomFine, CombinedOf, NoDuplicates, ForestReferences, DependenciesFine, NamesDiffer, GraphGood, Document,
      NamesOf,
      RootComponent, Targets;
    var doc := Document(CombinedOf(inputs, version), version);
    DocumentFine(inputs, version);
    DocumentTrees(CombinedOf(inputs, version), version);
    TreesIff(doc);
    GraphGoodIff(ItemsAt(doc, "dependencies"), Trees(doc), NamesOf(doc));
  }

  /** The node of the document's own root: it names the given ones, each once and in order, and nothing else. */
  ghost predicate IsRootNode(d: Json, version: string, roots: seq<string>) {
    && d.Obj? && d.Get("ref") == Str("urn:ancestryllm:desktop:" + version) && ItemsAt(d, "provides") == []
    && |ItemsAt(d, "dependsOn")| == |roots| && (forall x :: x in roots <==> Str(x) in ItemsAt(d, "dependsOn"))
    && SbomMeaning.InOrder(ItemsAt(d, "dependsOn"))
  }

  lemma RootNodeIs(version: string, roots: seq<string>)
    requires NoDuplicates(roots)
    ensures IsRootNode(RootNode(version, roots), version, roots)
  {
    hide Ascending, SbomMeaning.InOrder, NoDuplicates, RootNode;
    var order := SortedStrings(Names(roots));
    RootLists(version, roots);
    SameLength(roots, order);
    OrderedStrings(order);
  }

  /** A CycloneDX document whose root has the version and the reference of the release. */
  ghost predicate IsHeaded(doc: Json, version: string) {
    && doc.Obj? && doc.Get("bomFormat") == Str("CycloneDX") && doc.Get("specVersion") == Str("1.6")
    && exists root :: IsRoot(doc, root) && root.Get("version") == Str(version)
                      && root.Get("bom-ref") == Str("urn:ancestryllm:desktop:" + version)
  }

  lemma DocumentHead(c: Combined, version: string)
    ensures IsHeaded(Document(c, version), version)
  {
    hide RootNode;
    DocumentTrees(c, version);
    FieldsDiffer();
    assert IsRoot(Document(c, version), RootComponent(version));
  }

  /** The document holds the combined components and nodes, and before these the node of its own root over those of the
    * targets.
    */
  lemma DocumentIs(inputs: seq<Input>, version: string)
    requires AllFine(inputs, version) && Targets(inputs)
    ensures
      var c := CombinedOf(inputs, version);
      var nodes := ItemsAt(Document(c, version), "dependencies");
      && IsHeaded(Document(c, version), version)
      && NoDuplicates(c.roots) && ItemsAt(Document(c, version), "components") == c.components
      && nodes != [] && IsRootNode(nodes[0], version, c.roots) && nodes[1..] == c.dependencies
  {
    hide SbomFine, CombinedOf, AllNames, AllNodeNames, Targets, NoDuplicates, IsRootNode, RootNode, IsHeaded;
    DocumentHead(CombinedOf(inputs, version), version);
    RootsInside(inputs, version);
    RootNodeIs(version, CombinedOf(inputs, version).roots);
    DocumentTrees(CombinedOf(inputs, version), version);
  }

  /** Listing a set in order is sorting a list without repetitions. */
  lemma SameLength(names: seq<string>, order: seq<string>)
    requires NoDuplicates(names) && Ascending(StringLe, order) && forall x :: x in order <==> x in names
    ensures |order| == |names|
  {
    assert NoDuplicates(order);
    CountNames(names);
    CountNames(order);
    assert Names(names) == Names(order);
  }

  lemma {:induction false} CountNames(names: seq<string>)
    requires NoDuplicates(names)
    ensures |Names(names)| == |names|
  {
    if names != [] {
      CountNames(names[1..]);
      assert names[0] !in names[1..];
      assert Names(names) == {names[0]} + Names(names[1..]);
    }
  }

  /** What `aggregate` writes as `desktop-sbom.json`. */
  method Aggregate(inputs: seq<Input>, version: string) returns (r: Result<Json>)
    ensures r.Ok? <==> AllTargets(inputs) && forall i :: 0 <= i < |inputs| ==> SbomGood(inputs[i].payload, version)
    ensures r.Ok? ==>
      && AllFine(inputs, version) && r.value == Document(CombinedOf(inputs, version), version)
      && var root := RootComponent(version);
      && IsRoot(r.value, root) && NamesDiffer(TreesOf(r.value, root))
      && GraphGood(ItemsAt(r.value, "dependencies"), TreesOf(r.value, root))
  {
    hide AllTargets, SbomGood, SbomFine, CombinedOf, Document, NamesDiffer, GraphGood, RootComponent, Targets, IsMatrix;
    CombinedIff(inputs, version);
    var combined :- AggregateSboms(inputs, version);
    DocumentIsClosed(inputs, version);
    r := Ok(Document(combined, version));
  }
}
