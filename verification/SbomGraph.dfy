/** `_canonicalize_dependencies` (scripts/generate_sbom.py:201-254): the dependency graph of an SBOM with the aliases of
  * the project replaced by its one name, as a quotient of the graph that was given.
  */
module SbomGraph {
  import opened CycloneDx
  import opened Digraph
  import opened Json
  import opened SbomSanitizing
  import opened Sorting
  import opened Wrappers

  const GRAPH_INVALID := "SBOM_GRAPH_INVALID"

  type Aliases = map<string, string>

  function Alias(aliases: Aliases, x: string): string {
    if x in aliases then aliases[x] else x
  }

  // ----- the nodes as given -----

  predicate IsNode(d: Json) {
    && d.Obj? && d.fields.Keys <= {REF, DEPENDS_ON, PROVIDES}
    && REF in d.fields && IsName(d.fields[REF])
    && NamesOnly(EdgeList(d, DEPENDS_ON)) && NamesOnly(EdgeList(d, PROVIDES))
  }

  function RefOf(d: Json): string
    requires IsNode(d)
  {
    d.fields[REF].s
  }

  function Edges(d: Json, f: Field): set<string>
    requires IsNode(d)
  {
    set x | x in EdgeList(d, Key(f)).items :: x.s
  }

  ghost predicate AllNodes(deps: seq<Json>) {
    forall i :: 0 <= i < |deps| ==> IsNode(deps[i])
  }

  ghost predicate GivenEdge(deps: seq<Json>, f: Field, a: string, b: string)
    requires AllNodes(deps)
  {
    exists i :: 0 <= i < |deps| && RefOf(deps[i]) == a && b in Edges(deps[i], f)
  }

  // ----- the graph they become -----

  function Images(d: Json, f: Field, aliases: Aliases): set<string>
    requires IsNode(d)
  {
    (set e | e in Edges(d, f) :: Alias(aliases, e)) - {Alias(aliases, RefOf(d))}
  }

  function With(g: Graph<string>, x: string, targets: set<string>): Graph<string> {
    g[x := (if x in g then g[x] else {}) + targets]
  }

  /** The edges of one kind that the loop has collected after all of deps. */
  function Merged(deps: seq<Json>, f: Field, aliases: Aliases): Graph<string>
    requires AllNodes(deps)
  {
    if deps == [] then map[]
    else
      var last := deps[|deps| - 1];
      With(Merged(deps[..|deps| - 1], f, aliases), Alias(aliases, RefOf(last)), Images(last, f, aliases))
  }

  ghost predicate Contributes(d: Json, f: Field, aliases: Aliases, u: string, v: string)
    requires IsNode(d)
  {
    Alias(aliases, RefOf(d)) == u && v in Images(d, f, aliases)
  }

  lemma {:induction false} MergedNode(deps: seq<Json>, f: Field, aliases: Aliases, u: string)
    requires AllNodes(deps)
    ensures u in Merged(deps, f, aliases) <==> exists i :: 0 <= i < |deps| && Alias(aliases, RefOf(deps[i])) == u
  {
    hide IsNode, RefOf, Images;
    if deps != [] {
      var n := |deps| - 1;
      MergedNode(deps[..n], f, aliases, u);
      if Alias(aliases, RefOf(deps[n])) != u && u in Merged(deps, f, aliases) {
        var i :| 0 <= i < n && Alias(aliases, RefOf(deps[..n][i])) == u;
        assert deps[..n][i] == deps[i];
      }
      forall i | 0 <= i < n && Alias(aliases, RefOf(deps[i])) == u
        ensures u in Merged(deps[..n], f, aliases)
      {
        assert deps[..n][i] == deps[i];
      }
    }
  }

  lemma {:induction false} MergedEdge(deps: seq<Json>, f: Field, aliases: Aliases, u: string, v: string)
    requires AllNodes(deps)
    ensures Arrow(Merged(deps, f, aliases), u, v) <==>
      exists i :: 0 <= i < |deps| && Contributes(deps[i], f, aliases, u, v)
  {
    hide IsNode, RefOf, Images;
    if deps != [] {
      var n := |deps| - 1;
      MergedEdge(deps[..n], f, aliases, u, v);
      if Arrow(Merged(deps[..n], f, aliases), u, v) {
        var i :| 0 <= i < n && Contributes(deps[..n][i], f, aliases, u, v);
        assert deps[..n][i] == deps[i];
      }
      forall i | 0 <= i < n && Contributes(deps[i], f, aliases, u, v)
        ensures Arrow(Merged(deps[..n], f, aliases), u, v)
      {
        assert deps[..n][i] == deps[i];
      }
    }
  }

  ghost predicate HasPreimage(deps: seq<Json>, f: Field, aliases: Aliases, u: string, v: string)
    requires AllNodes(deps)
  {
    exists a, b :: GivenEdge(deps, f, a, b) && Alias(aliases, a) == u && Alias(aliases, b) == v
  }

  lemma ContributionHasPreimage(deps: seq<Json>, f: Field, aliases: Aliases, u: string, v: string, i: nat)
    requires AllNodes(deps) && i < |deps| && Contributes(deps[i], f, aliases, u, v)
    ensures u != v && HasPreimage(deps, f, aliases, u, v)
  {
    hide RefOf, Edges;
    var b :| b in Edges(deps[i], f) && Alias(aliases, b) == v;
    assert GivenEdge(deps, f, RefOf(deps[i]), b);
  }

  lemma PreimageContributes(deps: seq<Json>, f: Field, aliases: Aliases, u: string, v: string)
    requires AllNodes(deps) && u != v && HasPreimage(deps, f, aliases, u, v)
    ensures exists i :: 0 <= i < |deps| && Contributes(deps[i], f, aliases, u, v)
  {
    hide RefOf, Edges;
    var a, b :| GivenEdge(deps, f, a, b) && Alias(aliases, a) == u && Alias(aliases, b) == v;
    var i :| 0 <= i < |deps| && RefOf(deps[i]) == a && b in Edges(deps[i], f);
    assert Contributes(deps[i], f, aliases, u, v);
  }

  /** The edges are exactly the images of the given edges under the aliases, self-edges left out. */
  lemma EdgesAreAliasImages(deps: seq<Json>, f: Field, aliases: Aliases, u: string, v: string)
    requires AllNodes(deps)
    ensures Arrow(Merged(deps, f, aliases), u, v) <==> u != v && HasPreimage(deps, f, aliases, u, v)
  {
    MergedEdge(deps, f, aliases, u, v);
    hide Merged, Contributes, HasPreimage, IsNode;
    if Arrow(Merged(deps, f, aliases), u, v) {
      var i :| 0 <= i < |deps| && Contributes(deps[i], f, aliases, u, v);
      ContributionHasPreimage(deps, f, aliases, u, v, i);
    }
    if u != v && HasPreimage(deps, f, aliases, u, v) {
      PreimageContributes(deps, f, aliases, u, v);
    }
  }

  ghost predicate GivenPath(deps: seq<Json>, f: Field, p: seq<string>)
    requires AllNodes(deps)
  {
    |p| > 0 && forall i {:trigger p[i]} :: 0 <= i < |p| - 1 ==> GivenEdge(deps, f, p[i], p[i + 1])
  }

  /** Every given path becomes a path, possibly empty, between the names its ends have afterwards. */
  lemma {:induction false} PathsSurvive(deps: seq<Json>, f: Field, aliases: Aliases, p: seq<string>)
    requires AllNodes(deps) && GivenPath(deps, f, p)
    ensures Reach(Merged(deps, f, aliases), Alias(aliases, p[0]), Alias(aliases, p[|p| - 1]))
    decreases |p|
  {
    var g := Merged(deps, f, aliases);
    hide Merged, GivenEdge;
    var n := |p| - 1;
    if n == 0 {
      ReachSelf(g, Alias(aliases, p[0]));
    } else {
      var front := p[..n];
      assert GivenPath(deps, f, front) by {
        forall i | 0 <= i < |front| - 1 ensures GivenEdge(deps, f, front[i], front[i + 1]) {
          assert GivenEdge(deps, f, p[i], p[i + 1]);
        }
      }
      PathsSurvive(deps, f, aliases, front);
      var u, v := Alias(aliases, p[n - 1]), Alias(aliases, p[n]);
      assert GivenEdge(deps, f, p[n - 1], p[n]);
      EdgesAreAliasImages(deps, f, aliases, u, v);
      if u == v {
        ReachSelf(g, u);
      } else {
        ReachArrow(g, u, v);
      }
      ReachTransitive(g, Alias(aliases, p[0]), u, v);
    }
  }

  // ----- the nodes as written -----

  function Strings(names: seq<string>): (r: seq<Json>)
    ensures |r| == |names| && forall i :: 0 <= i < |r| ==> r[i] == Str(names[i])
  {
    seq(|names|, i requires 0 <= i < |names| => Str(names[i]))
  }

  function Names(s: set<string>): Json {
    Arr(Strings(SortedStrings(s)))
  }

  /** A node of the output; an empty edge list is left out. */
  function NodeOf(x: string, dependsOn: set<string>, provided: set<string>): Json {
    var node := map[REF := Str(x)];
    var node := if dependsOn == {} then node else node[DEPENDS_ON := Names(dependsOn)];
    var node := if provided == {} then node else node[PROVIDES := Names(provided)];
    Obj(node)
  }

  datatype Nodes = Nodes(dependsOn: Graph<string>, provided: Graph<string>)

  ghost predicate SameNodes(n: Nodes) {
    n.dependsOn.Keys == n.provided.Keys
  }

  function Of(n: Nodes, f: Field): Graph<string> {
    if f.DependsOn? then n.dependsOn else n.provided
  }

  function Targets(g: Graph<string>, x: string): set<string> {
    if x in g then g[x] else {}
  }

  function NodesOf(n: Nodes, order: seq<string>): seq<Json> {
    if order == [] then []
    else [NodeOf(order[0], Targets(n.dependsOn, order[0]), Targets(n.provided, order[0]))] + NodesOf(n, order[1..])
  }

  lemma {:induction false} NodesOfAt(n: Nodes, order: seq<string>)
    ensures |NodesOf(n, order)| == |order|
    ensures forall i :: 0 <= i < |order| ==>
      NodesOf(n, order)[i] == NodeOf(order[i], Targets(n.dependsOn, order[i]), Targets(n.provided, order[i]))
  {
    hide NodeOf, Targets;
    if order != [] {
      NodesOfAt(n, order[1..]);
    }
  }

  /** The list that is written: one node for each name, in order. */
  function Written(n: Nodes): seq<Json>
    requires SameNodes(n)
  {
    NodesOf(n, SortedStrings(n.dependsOn.Keys))
  }

  function Collected(deps: seq<Json>, aliases: Aliases): (n: Nodes)
    requires AllNodes(deps)
    ensures SameNodes(n)
  {
    var n := Nodes(Merged(deps, DependsOn, aliases), Merged(deps, Provides, aliases));
    MergedSameKeys(deps, aliases);
    n
  }

  lemma {:induction false} MergedSameKeys(deps: seq<Json>, aliases: Aliases)
    requires AllNodes(deps)
    ensures Merged(deps, DependsOn, aliases).Keys == Merged(deps, Provides, aliases).Keys
  {
    hide IsNode, RefOf, Images;
    if deps != [] {
      MergedSameKeys(deps[..|deps| - 1], aliases);
    }
  }

  /** What is accepted: well-formed nodes for exactly the components, whose edges end at components. */
  ghost predicate Acceptable(deps: seq<Json>, aliases: Aliases, components: set<string>) {
    && AllNodes(deps)
    && Collected(deps, aliases).dependsOn.Keys == components
    && Complete(Collected(deps, aliases).dependsOn) && Complete(Collected(deps, aliases).provided)
  }

  lemma CollectedStep(deps: seq<Json>, i: nat, aliases: Aliases)
    requires i < |deps| && AllNodes(deps[..i]) && IsNode(deps[i])
    ensures AllNodes(deps[..i + 1])
    ensures
      var before, x := Collected(deps[..i], aliases), Alias(aliases, RefOf(deps[i]));
      Collected(deps[..i + 1], aliases) ==
        Nodes(With(before.dependsOn, x, Images(deps[i], DependsOn, aliases)),
          With(before.provided, x, Images(deps[i], Provides, aliases)))
  {
    hide IsNode, RefOf, Images;
    assert deps[..i + 1][..i] == deps[..i];
  }

  /** The first loop of `_canonicalize_dependencies`. */
  method CollectNodes(raw: seq<Json>, aliases: Aliases) returns (r: Result<Nodes>)
    ensures r.Ok? <==> AllNodes(raw)
    ensures r.Ok? ==> r.value == Collected(raw, aliases)
    ensures r.Err? ==> r.code == STRUCTURE || r.code == GRAPH_INVALID
  {
    hide RefOf, Images, Merged, With;
    var nodes := Nodes(map[], map[]);
    assert raw[..0] == [];
    assert nodes == Collected([], aliases) by { EmptyCollected(aliases); }
    for i := 0 to |raw|
      invariant AllNodes(raw[..i]) && nodes == Collected(raw[..i], aliases)
    {
      var d := raw[i];
      if !d.Obj? {
        return Err(STRUCTURE);
      }
      if !IsNode(d) {
        return Err(GRAPH_INVALID);
      }
      CollectedStep(raw, i, aliases);
      var reference := Alias(aliases, RefOf(d));
      var dependsOn := With(nodes.dependsOn, reference, Images(d, DependsOn, aliases));
      var provided := With(nodes.provided, reference, Images(d, Provides, aliases));
      nodes := Nodes(dependsOn, provided);
    }
    assert raw[..|raw|] == raw;
    r := Ok(nodes);
  }

  lemma EmptyCollected(aliases: Aliases)
    ensures Collected([], aliases) == Nodes(map[], map[])
  {
  }

  lemma EmptyNodesOf(n: Nodes)
    ensures NodesOf(n, []) == []
  {
  }

  lemma NodesOfStep(n: Nodes, order: seq<string>, i: nat)
    requires i < |order|
    ensures NodesOf(n, order[i..]) ==
      [NodeOf(order[i], Targets(n.dependsOn, order[i]), Targets(n.provided, order[i]))] + NodesOf(n, order[i + 1..])
  {
    hide NodeOf, Targets;
    assert order[i..][1..] == order[i + 1..];
  }

  /** The last loop of `_canonicalize_dependencies`. */
  method WriteNodes(nodes: Nodes) returns (dependencies: seq<Json>)
    requires SameNodes(nodes)
    ensures dependencies == Written(nodes)
  {
    hide NodeOf, Targets, NodesOf, Ascending;
    var order := SortedStrings(nodes.dependsOn.Keys);
    dependencies := [];
    assert order[0..] == order;
    for i := 0 to |order|
      invariant dependencies + NodesOf(nodes, order[i..]) == NodesOf(nodes, order)
    {
      NodesOfStep(nodes, order, i);
      var x := order[i];
      dependencies := dependencies + [NodeOf(x, Targets(nodes.dependsOn, x), Targets(nodes.provided, x))];
    }
    EmptyNodesOf(nodes);
    assert order[|order|..] == [];
  }

  predicate EdgesInside(g: Graph<string>, components: set<string>) {
    forall x :: x in g ==> g[x] <= components
  }

  /** `_canonicalize_dependencies` */
  method CanonicalizeDependencies(raw: seq<Json>, aliases: Aliases, components: set<string>)
    returns (r: Result<seq<Json>>)
    ensures r.Ok? <==> Acceptable(raw, aliases, components)
    ensures r.Ok? ==> r.value == Written(Collected(raw, aliases))
    ensures r.Err? ==> r.code == STRUCTURE || r.code == GRAPH_INVALID
  {
    hide IsNode, Collected, Written;
    var nodes :- CollectNodes(raw, aliases);
    if nodes.dependsOn.Keys != components {
      return Err(GRAPH_INVALID);
    }
    assert EdgesInside(nodes.dependsOn, components) <==> Complete(nodes.dependsOn);
    assert EdgesInside(nodes.provided, components) <==> Complete(nodes.provided);
    if !EdgesInside(nodes.dependsOn, components) || !EdgesInside(nodes.provided, components) {
      return Err(GRAPH_INVALID);
    }
    var dependencies := WriteNodes(nodes);
    r := Ok(dependencies);
  }

  // ----- reading back what was written -----

  lemma NamesRead(s: set<string>)
    requires forall x :: x in s ==> x != ""
    ensures NamesOnly(Names(s))
    ensures (set x | x in Names(s).items :: x.s) == s
  {
    hide Ascending;
    var order := SortedStrings(s);
    var items := Names(s).items;
    forall x | x in items ensures IsName(x) && x.s in s {
      var i :| 0 <= i < |items| && items[i] == x;
      assert order[i] in order;
    }
    forall e | e in s ensures Str(e) in items {
      var i :| 0 <= i < |order| && order[i] == e;
      assert items[i] == Str(e);
    }
  }

  lemma KeysDiffer()
    ensures REF != DEPENDS_ON && REF != PROVIDES && DEPENDS_ON != PROVIDES
  {
    assert |REF| == 3 && |DEPENDS_ON| == 9 && |PROVIDES| == 8;
  }

  lemma NodeReads(x: string, dependsOn: set<string>, provided: set<string>)
    requires x != "" && (forall y :: y in dependsOn ==> y != "") && (forall y :: y in provided ==> y != "")
    ensures
      var d := NodeOf(x, dependsOn, provided);
      IsNode(d) && RefOf(d) == x && Edges(d, DependsOn) == dependsOn && Edges(d, Provides) == provided
  {
    hide Names;
    KeysDiffer();
    NamesRead(dependsOn);
    NamesRead(provided);
  }

  ghost predicate NoSelfEdges(g: Graph<string>) {
    forall x :: x in g ==> x !in g[x]
  }

  lemma GraphsEqual(g: Graph<string>, h: Graph<string>)
    requires forall x :: x in g <==> x in h
    requires forall x, y :: Arrow(g, x, y) <==> Arrow(h, x, y)
    ensures g == h
  {
    forall x | x in g ensures g[x] == h[x] {
      forall y ensures y in g[x] <==> y in h[x] {
        assert Arrow(g, x, y) <==> Arrow(h, x, y);
      }
    }
  }

  /** What `Acceptable` and the absence of self-edges make of the collected nodes. */
  ghost predicate Canonical(n: Nodes) {
    && SameNodes(n) && (forall x :: x in n.dependsOn ==> x != "")
    && Complete(n.dependsOn) && Complete(n.provided) && NoSelfEdges(n.dependsOn) && NoSelfEdges(n.provided)
  }

  lemma WrittenAt(n: Nodes, i: nat)
    requires Canonical(n) && i < |SortedStrings(n.dependsOn.Keys)|
    ensures |Written(n)| == |SortedStrings(n.dependsOn.Keys)|
    ensures
      var d, x := Written(n)[i], SortedStrings(n.dependsOn.Keys)[i];
      && IsNode(d) && RefOf(d) == x && x in n.dependsOn && x in n.provided
      && Edges(d, DependsOn) == n.dependsOn[x] && Edges(d, Provides) == n.provided[x]
  {
    hide IsNode, RefOf, Edges, NodesOf, NodeOf;
    var order := SortedStrings(n.dependsOn.Keys);
    NodesOfAt(n, order);
    var x := order[i];
    assert x in order;
    assert x in n.provided.Keys;
    NodeReads(x, n.dependsOn[x], n.provided[x]);
  }

  lemma WrittenLength(n: Nodes)
    requires SameNodes(n)
    ensures |Written(n)| == |SortedStrings(n.dependsOn.Keys)|
  {
    NodesOfAt(n, SortedStrings(n.dependsOn.Keys));
    hide NodesOf, Ascending;
  }

  lemma CanonicalParts(n: Nodes)
    requires Canonical(n)
    ensures SameNodes(n)
    ensures forall x, f, e :: x in n.dependsOn && e in Targets(Of(n, f), x) ==> e in n.dependsOn && e != x
  {
    hide SameNodes;
    assert n.dependsOn.Keys == n.provided.Keys by { CanonicalSame(n); }
    forall x, f, e | x in n.dependsOn && e in Targets(Of(n, f), x)
      ensures e in n.dependsOn && e != x
    {
      assert x in Of(n, f).Keys;
      assert Of(n, f)[x] <= n.dependsOn.Keys;
    }
  }

  lemma CanonicalSame(n: Nodes)
    requires Canonical(n)
    ensures n.dependsOn.Keys == n.provided.Keys
  {
  }

  lemma WrittenIsWellFormed(n: Nodes)
    requires Canonical(n)
    ensures AllNodes(Written(n))
  {
    CanonicalParts(n);
    WrittenLength(n);
    hide IsNode, RefOf, Edges, Canonical, Written, Ascending, SameNodes;
    forall i | 0 <= i < |Written(n)| ensures IsNode(Written(n)[i]) {
      WrittenAt(n, i);
    }
  }

  lemma NodeContributes(d: Json, f: Field, aliases: Aliases, x: string, targets: set<string>, u: string, v: string)
    requires IsNode(d) && RefOf(d) == x && Edges(d, f) == targets
    requires Alias(aliases, x) == x && forall e :: e in targets ==> Alias(aliases, e) == e && e != x
    ensures Contributes(d, f, aliases, u, v) <==> x == u && v in targets
  {
    hide IsNode, RefOf, Edges;
    assert Images(d, f, aliases) == targets;
  }

  lemma WrittenContributes(n: Nodes, f: Field, aliases: Aliases, i: nat, u: string, v: string)
    requires Canonical(n) && AllNodes(Written(n)) && i < |SortedStrings(n.dependsOn.Keys)|
      && |Written(n)| == |SortedStrings(n.dependsOn.Keys)|
    requires forall x :: x in n.dependsOn ==> Alias(aliases, x) == x
    ensures Contributes(Written(n)[i], f, aliases, u, v) <==>
      SortedStrings(n.dependsOn.Keys)[i] == u && Arrow(Of(n, f), u, v)
  {
    var d, x := Written(n)[i], SortedStrings(n.dependsOn.Keys)[i];
    CanonicalParts(n);
    WrittenAt(n, i);
    hide IsNode, RefOf, Edges, Written, Ascending, Canonical, SameNodes, Contributes;
    var targets := Targets(Of(n, f), x);
    forall e | e in targets ensures Alias(aliases, e) == e && e != x {
      assert e in n.dependsOn;
    }
    NodeContributes(d, f, aliases, x, targets, u, v);
  }

  lemma RemergedKeys(n: Nodes, f: Field, aliases: Aliases, u: string)
    requires Canonical(n) && AllNodes(Written(n))
    requires forall x :: x in n.dependsOn ==> Alias(aliases, x) == x
    ensures u in Merged(Written(n), f, aliases) <==> u in Of(n, f)
  {
    hide IsNode, RefOf, Merged, Written, Ascending, Canonical, Alias;
    CanonicalSame(n);
    var w, order := Written(n), SortedStrings(n.dependsOn.Keys);
    MergedNode(w, f, aliases, u);
    WrittenLength(n);
    forall i | 0 <= i < |w| ensures Alias(aliases, RefOf(w[i])) == order[i] {
      WrittenAt(n, i);
    }
    assert u in Of(n, f).Keys <==> u in n.dependsOn.Keys;
  }

  lemma RemergedArrows(n: Nodes, f: Field, aliases: Aliases, u: string, v: string)
    requires Canonical(n) && AllNodes(Written(n))
    requires forall x :: x in n.dependsOn ==> Alias(aliases, x) == x
    ensures Arrow(Merged(Written(n), f, aliases), u, v) <==> Arrow(Of(n, f), u, v)
  {
    var w, order := Written(n), SortedStrings(n.dependsOn.Keys);
    MergedEdge(w, f, aliases, u, v);
    WrittenLength(n);
    CanonicalSame(n);
    forall i | 0 <= i < |w| ensures Contributes(w[i], f, aliases, u, v) <==> order[i] == u && Arrow(Of(n, f), u, v) {
      WrittenContributes(n, f, aliases, i, u, v);
    }
    hide IsNode, RefOf, Merged, Written, Ascending, Canonical, SameNodes, Contributes;
    if Arrow(Of(n, f), u, v) {
      assert u in Of(n, f).Keys;
      assert u in order;
      var i :| 0 <= i < |order| && order[i] == u;
      assert Contributes(w[i], f, aliases, u, v);
    }
  }

  lemma Remerged(n: Nodes, f: Field, aliases: Aliases)
    requires Canonical(n) && AllNodes(Written(n))
    requires forall x :: x in n.dependsOn ==> Alias(aliases, x) == x
    ensures Merged(Written(n), f, aliases) == Of(n, f)
  {
    assert SameNodes(n);
    hide IsNode, Merged, Written, Canonical, SameNodes;
    forall u ensures u in Merged(Written(n), f, aliases) <==> u in Of(n, f) {
      RemergedKeys(n, f, aliases, u);
    }
    forall u, v ensures Arrow(Merged(Written(n), f, aliases), u, v) <==> Arrow(Of(n, f), u, v) {
      RemergedArrows(n, f, aliases, u, v);
    }
    GraphsEqual(Merged(Written(n), f, aliases), Of(n, f));
  }

  /** Reading the written graph again, with names that are no aliases, gives the same graph. */
  lemma ReadsBack(n: Nodes, aliases: Aliases)
    requires Canonical(n)
    requires forall x :: x in n.dependsOn ==> Alias(aliases, x) == x
    ensures Acceptable(Written(n), aliases, n.dependsOn.Keys) && Collected(Written(n), aliases) == n
  {
    WrittenIsWellFormed(n);
    Remerged(n, DependsOn, aliases);
    Remerged(n, Provides, aliases);
    hide Merged, Written, IsNode;
  }

  lemma CollectedIsCanonical(deps: seq<Json>, aliases: Aliases, components: set<string>)
    requires Acceptable(deps, aliases, components) && "" !in components
    ensures Canonical(Collected(deps, aliases))
  {
    NoSelfEdgesCollected(deps, DependsOn, aliases);
    NoSelfEdgesCollected(deps, Provides, aliases);
    hide Merged, IsNode, Complete;
  }

  lemma NoSelfEdgesCollected(deps: seq<Json>, f: Field, aliases: Aliases)
    requires AllNodes(deps)
    ensures NoSelfEdges(Merged(deps, f, aliases))
  {
    var g := Merged(deps, f, aliases);
    hide Merged, IsNode, HasPreimage;
    forall x | x in g ensures x !in g[x] {
      EdgesAreAliasImages(deps, f, aliases, x, x);
      assert !Arrow(g, x, x);
    }
  }
}
