/** The SBOM part of `aggregate` (scripts/assemble_desktop_release.py:446-570, 603-622): one SBOM for all targets. */
module DesktopAggregate {
  import opened CycloneDx
  import opened DesktopSbom
  import opened Json
  import opened Wrappers

  /** The keys of `TARGETS` */
  const TARGETS := {"darwin-arm64", "darwin-x64", "win32-arm64", "linux-x64"}

  // ----- dependency nodes -----

  predicate GoodNode(d: Json) {
    d.Obj? && REF in d.fields && IsName(d.fields[REF]) && NamesOnly(EdgeList(d, DEPENDS_ON))
      && NamesOnly(EdgeList(d, PROVIDES))
  }

  function RefOf(d: Json): string
    requires GoodNode(d)
  {
    d.fields[REF].s
  }

  /** The names on an edge list, in order. */
  function Related(d: Json, f: Field): (r: seq<string>)
    requires GoodNode(d)
    ensures |r| == |EdgeList(d, Key(f)).items| && forall i :: 0 <= i < |r| ==> EdgeList(d, Key(f)).items[i] == Str(r[i])
  {
    var items := EdgeList(d, Key(f)).items;
    assert forall i :: 0 <= i < |items| ==> items[i] in items;
    seq(|items|, i requires 0 <= i < |items| => items[i].s)
  }

  ghost predicate AllGood(ds: seq<Json>) {
    forall i :: 0 <= i < |ds| ==> GoodNode(ds[i])
  }

  function Refs(ds: seq<Json>): (r: seq<string>)
    requires AllGood(ds)
    ensures |r| == |ds| && forall i :: 0 <= i < |r| ==> r[i] == RefOf(ds[i])
  {
    seq(|ds|, i requires 0 <= i < |ds| => RefOf(ds[i]))
  }

  /** Both ends of every edge are among the names. */
  predicate Inside(d: Json, names: set<string>)
    requires GoodNode(d)
  {
    RefOf(d) in names && (forall x :: x in Related(d, DependsOn) ==> x in names)
      && (forall x :: x in Related(d, Provides) ==> x in names)
  }

  ghost predicate DependenciesFine(ds: seq<Json>, names: set<string>) {
    AllGood(ds) && NoDuplicates(Refs(ds)) && forall i :: 0 <= i < |ds| ==> Inside(ds[i], names)
  }

  function TargetNames(target: string, names: seq<string>): (r: seq<Json>)
    ensures |r| == |names| && forall i :: 0 <= i < |r| ==> r[i] == Str(TargetRef(target, names[i]))
  {
    seq(|names|, i requires 0 <= i < |names| => Str(TargetRef(target, names[i])))
  }

  /** A node for one target; both edge lists are written even when they were absent. */
  function CopiedNode(d: Json, target: string): (copied: Json)
    requires GoodNode(d)
    ensures copied.Obj?
  {
    Obj(d.fields[REF := Str(TargetRef(target, RefOf(d)))]
        [DEPENDS_ON := Arr(TargetNames(target, Related(d, DependsOn)))]
        [PROVIDES := Arr(TargetNames(target, Related(d, Provides)))])
  }

  function CopiedNodes(ds: seq<Json>, target: string): (r: seq<Json>)
    requires AllGood(ds)
    ensures |r| == |ds| && forall i :: 0 <= i < |r| ==> r[i] == CopiedNode(ds[i], target)
  {
    seq(|ds|, i requires 0 <= i < |ds| => CopiedNode(ds[i], target))
  }

  /** No reference of the target is among those taken. */
  ghost predicate Untouched(taken: set<string>, target: string) {
    forall x :: TargetRef(target, x) !in taken
  }

  datatype Nodes = Nodes(dependencies: seq<Json>, references: set<string>)

  lemma RefsStep(ds: seq<Json>, i: nat)
    requires i < |ds| && AllGood(ds[..i]) && GoodNode(ds[i])
    ensures AllGood(ds[..i + 1]) && Refs(ds[..i + 1]) == Refs(ds[..i]) + [RefOf(ds[i])]
    ensures forall target ::
      CopiedNodes(ds[..i + 1], target) == CopiedNodes(ds[..i], target) +
      [CopiedNode(ds[i], target)]
  {
    hide GoodNode, RefOf, CopiedNode;
    assert ds[..i + 1] == ds[..i] + [ds[i]];
  }

  /** Whether the reference of node i is taken already says whether it repeats an earlier one. */
  lemma TakenMeansRepeated(ds: seq<Json>, i: nat, target: string, taken: set<string>)
    requires i < |ds| && AllGood(ds[..i]) && GoodNode(ds[i]) && IsTarget(target) && Untouched(taken, target)
    ensures TargetRef(target, RefOf(ds[i])) in taken + TargetRefs(target, Names(Refs(ds[..i]))) <==>
      RefOf(ds[i]) in Refs(ds[..i])
  {
    hide GoodNode, RefOf, TargetRef;
    TargetRefIn(target, RefOf(ds[i]), Names(Refs(ds[..i])));
  }

  lemma RepeatedRefused(ds: seq<Json>, i: nat, names: set<string>)
    requires i < |ds| && AllGood(ds[..i]) && GoodNode(ds[i]) && RefOf(ds[i]) in Refs(ds[..i])
    ensures !DependenciesFine(ds, names)
  {
    hide GoodNode, RefOf, Inside;
    var j :| 0 <= j < i && Refs(ds[..i])[j] == RefOf(ds[i]);
    if AllGood(ds) {
      assert Refs(ds)[j] == Refs(ds)[i];
    }
  }

  lemma FreshAppended(ds: seq<Json>, i: nat, target: string)
    requires i < |ds| && AllGood(ds[..i]) && GoodNode(ds[i]) && RefOf(ds[i]) !in Refs(ds[..i])
      && NoDuplicates(Refs(ds[..i]))
    ensures AllGood(ds[..i + 1]) && NoDuplicates(Refs(ds[..i + 1]))
    ensures TargetRefs(target, Names(Refs(ds[..i + 1]))) == TargetRefs(target, Names(Refs(ds[..i]))) +
      {TargetRef(target, RefOf(ds[i]))}
  {
    hide GoodNode, RefOf, TargetRef;
    RefsStep(ds, i);
    NoDuplicatesAppend(Refs(ds[..i]), [RefOf(ds[i])]);
    TargetRefsJoin(target, Refs(ds[..i]), [RefOf(ds[i])]);
    assert TargetRefs(target, Names([RefOf(ds[i])])) == {TargetRef(target, RefOf(ds[i]))};
  }

  /** The loop over the dependencies of one target. */
  method TargetDependencies(ds: seq<Json>, target: string, targetReferences: set<string>, ghost names: set<string>,
                            taken: set<string>)
    returns (r: Result<Nodes>)
    requires IsTarget(target) && Untouched(taken, target) && targetReferences == TargetRefs(target, names)
    ensures r.Ok? <==> DependenciesFine(ds, names)
    ensures r.Ok? ==> r.value == Nodes(CopiedNodes(ds, target), taken + TargetRefs(target, Names(Refs(ds))))
  {
    hide GoodNode, RefOf, Inside, CopiedNode, TargetRef, TargetRefs, NoDuplicates, ReferencedInside, Names;
    var dependencies: seq<Json> := [];
    var references := taken;
    NothingYet(ds, target);
    for i := 0 to |ds|
      invariant AllGood(ds[..i]) && NoDuplicates(Refs(ds[..i]))
        && forall j :: 0 <= j < i ==> GoodNode(ds[j]) && Inside(ds[j], names)
      invariant dependencies == CopiedNodes(ds[..i], target)
      invariant references == taken + TargetRefs(target, Names(Refs(ds[..i])))
    {
      var d := ds[i];
      if !GoodNode(d) {
        return Err(MALFORMED);
      }
      var reference := TargetRef(target, RefOf(d));
      TakenMeansRepeated(ds, i, target, taken);
      if reference in references {
        RepeatedRefused(ds, i, names);
        return Err(DUPLICATE);
      }
      var copied := CopiedNode(d, target);
      CopiedInside(d, target, names);
      if !ReferencedInside(copied, targetReferences) {
        return Err(MALFORMED);
      }
      RefsStep(ds, i);
      FreshAppended(ds, i, target);
      references := references + {reference};
      dependencies := dependencies + [copied];
    }
    assert ds[..|ds|] == ds;
    r := Ok(Nodes(dependencies, references));
  }

  lemma NothingYet(ds: seq<Json>, target: string)
    ensures AllGood(ds[..0]) && NoDuplicates(Refs(ds[..0])) && CopiedNodes(ds[..0], target) == []
      && TargetRefs(target, Names(Refs(ds[..0]))) == {}
  {
  }

  /** `referenced <= target_references` */
  predicate ReferencedInside(copied: Json, references: set<string>)
    requires copied.Obj?
  {
    && copied.Get(REF).Str? && copied.Get(REF).s in references
    && copied.Get(DEPENDS_ON).Arr? && copied.Get(PROVIDES).Arr?
    && (forall i :: 0 <= i < |copied.Get(DEPENDS_ON).items| ==>
      copied.Get(DEPENDS_ON).items[i].Str? && copied.Get(DEPENDS_ON).items[i].s in references)
    && (forall i :: 0 <= i < |copied.Get(PROVIDES).items| ==>
      copied.Get(PROVIDES).items[i].Str? && copied.Get(PROVIDES).items[i].s in references)
  }

  lemma NodeKeysDiffer()
    ensures REF != DEPENDS_ON && REF != PROVIDES && DEPENDS_ON != PROVIDES
  {
    assert |REF| == 3 && |DEPENDS_ON| == 9 && |PROVIDES| == 8;
  }

  lemma TargetRefIn(target: string, x: string, names: set<string>)
    requires IsTarget(target)
    ensures TargetRef(target, x) in TargetRefs(target, names) <==> x in names
  {
    if TargetRef(target, x) in TargetRefs(target, names) {
      var y :| y in names && TargetRef(target, y) == TargetRef(target, x);
      TargetRefInjective(target, x, target, y);
    }
  }

  lemma TargetNamesIn(target: string, related: seq<string>, names: set<string>)
    requires IsTarget(target)
    ensures (forall i :: 0 <= i < |related| ==> TargetRef(target, related[i]) in TargetRefs(target, names)) <==>
      forall x :: x in related ==> x in names
  {
    hide TargetRef, TargetRefs;
    forall i | 0 <= i < |related| ensures TargetRef(target, related[i]) in TargetRefs(target, names) <==>
      related[i] in names {
      TargetRefIn(target, related[i], names);
    }
  }

  /** Checking the copied node against the copied names is checking the node against the names. */
  lemma CopiedInside(d: Json, target: string, names: set<string>)
    requires GoodNode(d) && IsTarget(target)
    ensures ReferencedInside(CopiedNode(d, target), TargetRefs(target, names)) <==> Inside(d, names)
  {
    NodeKeysDiffer();
    TargetRefIn(target, RefOf(d), names);
    TargetNamesIn(target, Related(d, DependsOn), names);
    TargetNamesIn(target, Related(d, Provides), names);
    hide TargetRef, TargetRefs, GoodNode;
    var c := CopiedNode(d, target);
    assert c.Get(DEPENDS_ON).items == TargetNames(target, Related(d, DependsOn));
    assert c.Get(PROVIDES).items == TargetNames(target, Related(d, Provides));
  }

  // ----- one target -----

  datatype Input = Input(target: string, payload: Json)

  function ListOf(payload: Json, key: string): seq<Json>
    requires payload.Obj?
  {
    if payload.Get(key).Arr? then payload.Get(key).items else []
  }

  predicate HasRoot(payload: Json) {
    payload.Obj? && payload.Get(METADATA).Obj? && payload.Get(METADATA).Get("component").Obj?
  }

  function Root(payload: Json): Json
    requires HasRoot(payload)
  {
    payload.Get(METADATA).Get("component")
  }

  /** The root component and the listed ones. */
  function Trees(payload: Json): seq<Json>
    requires HasRoot(payload)
  {
    [Root(payload)] + ListOf(payload, COMPONENTS)
  }

  /** A key that may be absent, but must otherwise hold a list of objects. */
  predicate ObjectsOrAbsent(payload: Json, key: string)
    requires payload.Obj?
  {
    key in payload.fields ==> Objects(payload.fields[key])
  }

  predicate Headed(payload: Json, version: string) {
    && payload.Obj? && payload.Get("bomFormat") == Str("CycloneDX")
    && HasRoot(payload) && Root(payload).Get("version") == Str(version)
    && ObjectsOrAbsent(payload, COMPONENTS)
  }

  /** What is accepted as the SBOM of one target. */
  ghost predicate SbomFine(payload: Json, version: string) {
    && Headed(payload, version)
    && AllWellFormed(Trees(payload)) && NoDuplicates(ForestReferences(Trees(payload)))
    && BOM_REF in Root(payload).fields
    && ObjectsOrAbsent(payload, DEPENDENCIES)
    && DependenciesFine(ListOf(payload, DEPENDENCIES), Names(ForestReferences(Trees(payload))))
  }

  function NamesOf(payload: Json): set<string>
    requires HasRoot(payload)
  {
    Names(ForestReferences(Trees(payload)))
  }

  function RootName(payload: Json): string
    requires HasRoot(payload) && BOM_REF in Root(payload).fields && Root(payload).fields[BOM_REF].Str?
  {
    Root(payload).fields[BOM_REF].s
  }

  lemma RootListed(payload: Json)
    requires HasRoot(payload) && BOM_REF in Root(payload).fields && Root(payload).fields[BOM_REF].Str?
    ensures RootName(payload) in NamesOf(payload)
  {
    var trees := Trees(payload);
    assert trees[0] == Root(payload);
    assert RootName(payload) in OwnReference(Root(payload));
    assert RootName(payload) in TreeReferences(trees[0]);
    assert RootName(payload) in ForestReferences(trees);
  }

  lemma TreesInside(payload: Json)
    requires HasRoot(payload)
    ensures forall x :: x in Trees(payload) ==> x < payload
  {
    var metadata := payload.Get(METADATA);
    assert METADATA in payload.fields && metadata < payload;
    assert "component" in metadata.fields && Root(payload) < metadata;
    assert Root(payload) < payload;
    if payload.Get(COMPONENTS).Arr? {
      assert COMPONENTS in payload.fields && payload.fields[COMPONENTS] < payload;
      forall x | x in ListOf(payload, COMPONENTS) ensures x < payload {
        assert x < payload.fields[COMPONENTS];
      }
    }
  }

  datatype Part = Part(components: seq<Json>, references: set<string>, root: string, nodes: Nodes)

  function PartOf(input: Input, version: string, taken: set<string>): Part
    requires SbomFine(input.payload, version)
  {
    FineParts(input.payload, version);
    var p, t := input.payload, input.target;
    Part(CopiedAll(Trees(p), t), TargetRefs(t, NamesOf(p)), TargetRef(t, RootName(p)),
      Nodes(CopiedNodes(ListOf(p, DEPENDENCIES), t), taken + TargetRefs(t, Names(Refs(ListOf(p, DEPENDENCIES))))))
  }

  lemma FineParts(payload: Json, version: string)
    requires SbomFine(payload, version)
    ensures HasRoot(payload) && BOM_REF in Root(payload).fields && Root(payload).fields[BOM_REF].Str?
  {
    assert WellFormed(Trees(payload)[0]);
    hide DependenciesFine;
  }

  /** The body of the loop over the targets, for its SBOM. */
  method TargetSbom(input: Input, version: string, taken: set<string>) returns (r: Result<Part>)
    requires IsTarget(input.target) && Untouched(taken, input.target)
    ensures r.Ok? <==> SbomFine(input.payload, version)
    ensures r.Ok? ==> r.value == PartOf(input, version, taken)
  {
    hide AllWellFormed, WellFormed, NoDuplicates, DependenciesFine, ForestReferences, TargetRefs, Names, CopiedAll,
      CopiedNodes, TargetRef;
    var p, t := input.payload, input.target;
    if !Headed(p, version) {
      return Err(MALFORMED);
    }
    var trees := Trees(p);
    TreesInside(p);
    assert forall x :: x in trees ==> x.Obj?;
    NothingOwn(trees);
    var targeted :- TargetChildren(trees, p, [], t);
    RootFine(p);
    if BOM_REF !in Root(p).fields {
      return Err(MALFORMED);
    }
    var root := TargetRef(t, RootName(p));
    RootListed(p);
    TargetRefIn(t, RootName(p), NamesOf(p));
    // The root is always among the references, so the check that it was preserved cannot fail.
    assert root in targeted.references;
    if !ObjectsOrAbsent(p, DEPENDENCIES) {
      return Err(MALFORMED);
    }
    var nodes :- TargetDependencies(ListOf(p, DEPENDENCIES), t, targeted.references, NamesOf(p), taken);
    r := Ok(Part(targeted.components, targeted.references, root, nodes));
  }

  lemma NothingOwn(cs: seq<Json>)
    ensures NoDuplicates([]) && [] + ForestReferences(cs) == ForestReferences(cs)
  {
  }

  lemma RootFine(payload: Json)
    requires HasRoot(payload) && AllWellFormed(Trees(payload))
    ensures BOM_REF in Root(payload).fields ==> IsName(Root(payload).fields[BOM_REF])
  {
    assert WellFormed(Trees(payload)[0]);
  }

  // ----- all targets -----

  datatype Combined = Combined(components: seq<Json>, dependencies: seq<Json>, roots: seq<string>)

  ghost predicate AllFine(inputs: seq<Input>, version: string) {
    forall i :: 0 <= i < |inputs| ==> SbomFine(inputs[i].payload, version)
  }

  predicate Known(target: string) {
    target in TARGETS
  }

  predicate IsMatrix(targets: set<string>) {
    targets == TARGETS
  }

  predicate IsMatrixSize(n: nat) {
    n == |TARGETS|
  }

  function TargetsOf(inputs: seq<Input>): set<string> {
    set i | 0 <= i < |inputs| :: inputs[i].target
  }

  /** Known targets, each only once. */
  ghost predicate Targets(inputs: seq<Input>) {
    && (forall i :: 0 <= i < |inputs| ==> Known(inputs[i].target))
    && (forall i, j :: 0 <= i < j < |inputs| ==> inputs[i].target != inputs[j].target)
  }

  ghost predicate Matrix(inputs: seq<Input>) {
    Targets(inputs) && IsMatrix(TargetsOf(inputs)) && IsMatrixSize(|inputs|)
  }

  function CombinedOf(inputs: seq<Input>, version: string): Combined
    requires AllFine(inputs, version)
  {
    if inputs == [] then Combined([], [], [])
    else
      var n := |inputs| - 1;
      var front, part := CombinedOf(inputs[..n], version), PartOf(inputs[n], version, {});
      Combined(front.components + part.components, front.dependencies + part.nodes.dependencies,
        front.roots + [part.root])
  }

  function AllNames(inputs: seq<Input>, version: string): set<string>
    requires AllFine(inputs, version)
  {
    if inputs == [] then {}
    else AllNames(inputs[..|inputs| - 1], version) + PartOf(inputs[|inputs| - 1], version, {}).references
  }

  function AllNodeNames(inputs: seq<Input>, version: string): set<string>
    requires AllFine(inputs, version)
  {
    if inputs == [] then {}
    else AllNodeNames(inputs[..|inputs| - 1], version) + PartOf(inputs[|inputs| - 1], version, {}).nodes.references
  }

  lemma TargetsHaveNoColon(target: string)
    requires Known(target)
    ensures IsTarget(target)
  {
  }

  /** What earlier targets took cannot hold a reference of another target. */
  lemma {:induction false} OthersUntouched(inputs: seq<Input>, version: string, target: string)
    requires AllFine(inputs, version) && Targets(inputs) && Known(target)
      && forall i :: 0 <= i < |inputs| ==> inputs[i].target != target
    ensures Untouched(AllNames(inputs, version), target) && Untouched(AllNodeNames(inputs, version), target)
  {
    hide TargetRef, IsTarget, SbomFine, Known;
    if inputs != [] {
      var n := |inputs| - 1;
      var last := inputs[n];
      OthersUntouched(inputs[..n], version, target);
      TargetsHaveNoColon(target);
      TargetsHaveNoColon(last.target);
      forall x, y ensures TargetRef(last.target, y) != TargetRef(target, x) {
        if TargetRef(last.target, y) == TargetRef(target, x) {
          TargetRefInjective(last.target, y, target, x);
        }
      }
    }
  }

  lemma CombinedStep(inputs: seq<Input>, i: nat, version: string)
    requires i < |inputs| && AllFine(inputs[..i], version) && SbomFine(inputs[i].payload, version)
    ensures AllFine(inputs[..i + 1], version)
    ensures
      var before, part := CombinedOf(inputs[..i], version), PartOf(inputs[i], version, {});
      && CombinedOf(inputs[..i + 1], version) ==
        Combined(before.components + part.components, before.dependencies + part.nodes.dependencies,
          before.roots + [part.root])
      && AllNames(inputs[..i + 1], version) == AllNames(inputs[..i], version) + part.references
      && AllNodeNames(inputs[..i + 1], version) == AllNodeNames(inputs[..i], version) + part.nodes.references
  {
    hide SbomFine, PartOf;
    assert inputs[..i + 1][..i] == inputs[..i];
  }

  lemma TargetsStep(inputs: seq<Input>, i: nat)
    requires i < |inputs| && Targets(inputs[..i])
    ensures Targets(inputs[..i + 1]) <==> Known(inputs[i].target) && inputs[i].target !in TargetsOf(inputs[..i])
    ensures Targets(inputs) ==> Targets(inputs[..i + 1])
    ensures TargetsOf(inputs[..i + 1]) == TargetsOf(inputs[..i]) + {inputs[i].target}
  {
    hide Known;
    var before := inputs[..i];
    assert forall j :: 0 <= j < i ==> inputs[..i + 1][j] == before[j];
    if Targets(inputs[..i + 1]) {
      forall j | 0 <= j < i ensures before[j].target != inputs[i].target {
        assert inputs[..i + 1][j].target != inputs[..i + 1][i].target;
      }
    }
  }

  lemma NothingCombined(inputs: seq<Input>, version: string)
    requires inputs == []
    ensures AllFine(inputs, version) && Targets(inputs) && TargetsOf(inputs) == {}
    ensures CombinedOf(inputs, version) == Combined([], [], []) && AllNames(inputs, version) == {}
      && AllNodeNames(inputs, version) == {}
  {
  }

  lemma NewReferences(taken: set<string>, input: Input, version: string)
    requires SbomFine(input.payload, version) && Untouched(taken, input.target) && IsTarget(input.target)
    ensures taken !! PartOf(input, version, {}).references
  {
    PartsJoin(input, version, {});
    hide SbomFine, IsTarget, PartOf;
    forall x | x in PartOf(input, version, {}).references ensures x !in taken {
      var y :| x == TargetRef(input.target, y);
    }
  }

  /** The SBOM part of `aggregate`. */
  method AggregateSboms(inputs: seq<Input>, version: string) returns (r: Result<Combined>)
    ensures r.Ok? <==> Matrix(inputs) && AllFine(inputs, version)
    ensures r.Ok? ==> r.value == CombinedOf(inputs, version)
  {
    hide SbomFine, IsTarget, TargetRef, PartOf, Known, Targets, TargetsOf, CombinedOf, AllNames, AllNodeNames, IsMatrix,
      IsMatrixSize, Untouched;
    if !IsMatrixSize(|inputs|) {
      return Err(MALFORMED);
    }
    var targets: set<string> := {};
    var combined := Combined([], [], []);
    var sbomReferences: set<string>, dependencyReferences: set<string> := {}, {};
    NothingCombined(inputs[..0], version);
    for i := 0 to |inputs|
      invariant AllFine(inputs[..i], version) && Targets(inputs[..i]) && targets == TargetsOf(inputs[..i])
      invariant combined == CombinedOf(inputs[..i], version)
      invariant sbomReferences == AllNames(inputs[..i], version)
        && dependencyReferences == AllNodeNames(inputs[..i], version)
    {
      var input := inputs[i];
      TargetsStep(inputs, i);
      if !Known(input.target) || input.target in targets {
        return Err(MALFORMED);
      }
      TargetsHaveNoColon(input.target);
      NotYetSeen(inputs, i);
      OthersUntouched(inputs[..i], version, input.target);
      var part :- TargetSbom(input, version, dependencyReferences);
      PartsJoin(input, version, dependencyReferences);
      NewReferences(sbomReferences, input, version);
      // No reference of this target can be there already, so the check for duplicates in the combined SBOM cannot fail.
      assert sbomReferences !! part.references;
      CombinedStep(inputs, i, version);
      sbomReferences := sbomReferences + part.references;
      dependencyReferences := part.nodes.references;
      combined := Combined(combined.components + part.components, combined.dependencies + part.nodes.dependencies,
        combined.roots + [part.root]);
      targets := targets + {input.target};
    }
    assert inputs[..|inputs|] == inputs;
    if !IsMatrix(targets) {
      return Err(MALFORMED);
    }
    r := Ok(combined);
  }

  lemma NotYetSeen(inputs: seq<Input>, i: nat)
    requires i < |inputs| && inputs[i].target !in TargetsOf(inputs[..i])
    ensures forall j :: 0 <= j < i ==> inputs[..i][j].target != inputs[i].target
  {
  }

  lemma PartsJoin(input: Input, version: string, taken: set<string>)
    requires SbomFine(input.payload, version) && IsTarget(input.target)
    ensures
      var p, q := PartOf(input, version, taken), PartOf(input, version, {});
      && p.components == q.components && p.references == q.references && p.root == q.root
      && p.nodes.dependencies == q.nodes.dependencies && p.nodes.references == taken + q.nodes.references
    ensures forall x :: x in PartOf(input, version, taken).references ==> exists y :: x == TargetRef(input.target, y)
  {
    hide SbomFine, IsTarget, TargetRef;
  }

  // ----- the combined graph is a disjoint union -----

  ghost predicate Edge(ds: seq<Json>, f: Field, a: string, b: string)
    requires AllGood(ds)
  {
    exists i :: 0 <= i < |ds| && RefOf(ds[i]) == a && b in Related(ds[i], f)
  }

  lemma CopiedNodeReads(d: Json, target: string)
    requires GoodNode(d)
    ensures GoodNode(CopiedNode(d, target)) && RefOf(CopiedNode(d, target)) == TargetRef(target, RefOf(d))
    ensures forall f :: EdgeList(CopiedNode(d, target), Key(f)) == Arr(TargetNames(target, Related(d, f)))
  {
    NodeKeysDiffer();
  }

  lemma CopiedRelated(d: Json, target: string, f: Field, v: string)
    requires GoodNode(d) && GoodNode(CopiedNode(d, target))
    ensures v in Related(CopiedNode(d, target), f) <==> exists b :: b in Related(d, f) && v == TargetRef(target, b)
  {
    hide GoodNode, CopiedNode, TargetRef, EdgeList;
    CopiedNodeReads(d, target);
    var r, q := Related(d, f), Related(CopiedNode(d, target), f);
    assert forall i :: 0 <= i < |q| ==> q[i] == TargetRef(target, r[i]);
    if v in q {
      var i :| 0 <= i < |q| && q[i] == v;
      assert r[i] in r;
    }
    if exists b :: b in r && v == TargetRef(target, b) {
      var b :| b in r && v == TargetRef(target, b);
      var i :| 0 <= i < |r| && r[i] == b;
      assert q[i] == v;
    }
  }

  /** An edge of the copied nodes is the image of an edge of the given ones. */
  ghost predicate EdgeImage(ds: seq<Json>, target: string, f: Field, u: string, v: string)
    requires AllGood(ds)
  {
    exists a, b :: Edge(ds, f, a, b) && u == TargetRef(target, a) && v == TargetRef(target, b)
  }

  lemma CopiedAllGood(ds: seq<Json>, target: string)
    requires AllGood(ds)
    ensures AllGood(CopiedNodes(ds, target))
  {
    hide GoodNode, CopiedNode, RefOf;
    forall i | 0 <= i < |ds| ensures GoodNode(CopiedNodes(ds, target)[i]) {
      CopiedNodeReads(ds[i], target);
    }
  }

  lemma CopiedEdge(ds: seq<Json>, target: string, f: Field, u: string, v: string)
    requires AllGood(ds) && AllGood(CopiedNodes(ds, target))
    ensures Edge(CopiedNodes(ds, target), f, u, v) <==> EdgeImage(ds, target, f, u, v)
  {
    hide GoodNode, CopiedNode, RefOf, TargetRef;
    var copied := CopiedNodes(ds, target);
    if Edge(copied, f, u, v) {
      var i :| 0 <= i < |copied| && RefOf(copied[i]) == u && v in Related(copied[i], f);
      CopiedNodeReads(ds[i], target);
      CopiedRelated(ds[i], target, f, v);
      var b :| b in Related(ds[i], f) && v == TargetRef(target, b);
      assert Edge(ds, f, RefOf(ds[i]), b);
    }
    if EdgeImage(ds, target, f, u, v) {
      var a, b :| Edge(ds, f, a, b) && u == TargetRef(target, a) && v == TargetRef(target, b);
      var i :| 0 <= i < |ds| && RefOf(ds[i]) == a && b in Related(ds[i], f);
      CopiedNodeReads(ds[i], target);
      CopiedRelated(ds[i], target, f, v);
      assert RefOf(copied[i]) == u;
    }
  }

  function NodesIn(input: Input): seq<Json>
    requires input.payload.Obj?
  {
    ListOf(input.payload, DEPENDENCIES)
  }

  ghost predicate TargetHas(input: Input, version: string, f: Field, u: string, v: string)
    requires SbomFine(input.payload, version)
  {
    EdgeImage(NodesIn(input), input.target, f, u, v)
  }

  ghost predicate SomeTargetHas(inputs: seq<Input>, version: string, f: Field, u: string, v: string)
    requires AllFine(inputs, version)
  {
    exists k :: 0 <= k < |inputs| && TargetHas(inputs[k], version, f, u, v)
  }

  lemma JoinedEdge(a: seq<Json>, b: seq<Json>, f: Field, u: string, v: string)
    requires AllGood(a) && AllGood(b)
    ensures AllGood(a + b) && (Edge(a + b, f, u, v) <==> Edge(a, f, u, v) || Edge(b, f, u, v))
  {
    hide GoodNode, RefOf;
    var c := a + b;
    assert forall i :: 0 <= i < |a| ==> c[i] == a[i];
    assert forall i :: 0 <= i < |b| ==> c[|a| + i] == b[i];
    if Edge(c, f, u, v) {
      var i :| 0 <= i < |c| && RefOf(c[i]) == u && v in Related(c[i], f);
      if i >= |a| {
        assert RefOf(b[i - |a|]) == u && v in Related(b[i - |a|], f);
      }
    }
    if Edge(b, f, u, v) {
      var i :| 0 <= i < |b| && RefOf(b[i]) == u && v in Related(b[i], f);
      assert RefOf(c[|a| + i]) == u;
    }
    if Edge(a, f, u, v) {
      var i :| 0 <= i < |a| && RefOf(a[i]) == u && v in Related(a[i], f);
      assert RefOf(c[i]) == u;
    }
  }

  /** Every edge of the combined SBOM is an edge of one target with the target before both names, and conversely. */
  lemma {:induction false} CombinedEdges(inputs: seq<Input>, version: string, f: Field, u: string, v: string)
    requires AllFine(inputs, version)
    ensures AllGood(CombinedOf(inputs, version).dependencies)
    ensures Edge(CombinedOf(inputs, version).dependencies, f, u, v) <==> SomeTargetHas(inputs, version, f, u, v)
    decreases |inputs|
  {
    if inputs != [] {
      var n := |inputs| - 1;
      var front, last := inputs[..n], inputs[n];
      assert AllFine(front, version);
      assert SbomFine(last.payload, version);
      assert AllGood(NodesIn(last));
      assert PartOf(last, version, {}).nodes.dependencies == CopiedNodes(NodesIn(last), last.target);
      assert TargetHas(last, version, f, u, v) <==> EdgeImage(NodesIn(last), last.target, f, u, v);
      hide SbomFine, GoodNode, Edge, PartOf, EdgeImage, TargetHas, SomeTargetHas;
      CombinedEdges(front, version, f, u, v);
      CopiedAllGood(NodesIn(last), last.target);
      CopiedEdge(NodesIn(last), last.target, f, u, v);
      JoinedEdge(CombinedOf(front, version).dependencies, CopiedNodes(NodesIn(last), last.target), f, u, v);
      TargetHasStep(inputs, version, f, u, v);
    }
  }

  lemma TargetHasStep(inputs: seq<Input>, version: string, f: Field, u: string, v: string)
    requires AllFine(inputs, version) && inputs != [] && AllFine(inputs[..|inputs| - 1], version)
    ensures
      var n := |inputs| - 1;
      SomeTargetHas(inputs, version, f, u, v) <==>
        SomeTargetHas(inputs[..n], version, f, u, v) || TargetHas(inputs[n], version, f, u, v)
  {
    hide SbomFine, TargetHas;
    var n := |inputs| - 1;
    var front := inputs[..n];
    assert forall k :: 0 <= k < n ==> front[k] == inputs[k];
    assert SbomFine(inputs[n].payload, version);
    if SomeTargetHas(front, version, f, u, v) {
      var k :| 0 <= k < n && TargetHas(front[k], version, f, u, v);
      assert TargetHas(inputs[k], version, f, u, v);
    }
  }

  lemma NodesGood(inputs: seq<Input>, version: string, k: nat)
    requires AllFine(inputs, version) && k < |inputs|
    ensures SbomFine(inputs[k].payload, version) && inputs[k].payload.Obj? && AllGood(NodesIn(inputs[k]))
  {
    hide GoodNode;
    assert SbomFine(inputs[k].payload, version);
  }

  /** An edge under the prefix of one target is an edge of that target. */
  lemma PrefixedEdge(inputs: seq<Input>, version: string, k: nat, j: nat, f: Field, a: string, b: string)
    requires AllFine(inputs, version) && Targets(inputs) && k < |inputs| && j < |inputs|
    requires SbomFine(inputs[j].payload, version)
    requires TargetHas(inputs[j], version, f, TargetRef(inputs[k].target, a), TargetRef(inputs[k].target, b))
    ensures AllGood(NodesIn(inputs[k])) && Edge(NodesIn(inputs[k]), f, a, b)
  {
    hide SbomFine, GoodNode, Edge, TargetRef, CombinedOf, Known, IsTarget, NodesIn;
    NodesGood(inputs, version, j);
    NodesGood(inputs, version, k);
    var t, q := inputs[k].target, inputs[j].target;
    var x, y :| Edge(NodesIn(inputs[j]), f, x, y) && TargetRef(t, a) == TargetRef(q, x)
      && TargetRef(t, b) == TargetRef(q, y);
    TargetsHaveNoColon(t);
    TargetsHaveNoColon(q);
    TargetRefInjective(t, a, q, x);
    TargetRefInjective(t, b, q, y);
  }

  /** Taking the prefix off again recovers the graph of each target. */
  lemma PrefixOff(inputs: seq<Input>, version: string, k: nat, f: Field, a: string, b: string)
    requires AllFine(inputs, version) && Targets(inputs) && k < |inputs|
    ensures AllGood(NodesIn(inputs[k])) && AllGood(CombinedOf(inputs, version).dependencies)
    ensures
      var t := inputs[k].target;
      Edge(CombinedOf(inputs, version).dependencies, f, TargetRef(t, a), TargetRef(t, b)) <==>
        Edge(NodesIn(inputs[k]), f, a, b)
  {
    hide SbomFine, GoodNode, Edge, TargetRef, CombinedOf, Targets, NodesIn;
    var u, v := TargetRef(inputs[k].target, a), TargetRef(inputs[k].target, b);
    NodesGood(inputs, version, k);
    CombinedEdges(inputs, version, f, u, v);
    if SomeTargetHas(inputs, version, f, u, v) {
      var j :| 0 <= j < |inputs| && TargetHas(inputs[j], version, f, u, v);
      PrefixedEdge(inputs, version, k, j, f, a, b);
    }
    if Edge(NodesIn(inputs[k]), f, a, b) {
      assert TargetHas(inputs[k], version, f, u, v);
    }
  }

  /** No edge leaves its target: both ends are references of components of the same target. */
  lemma EdgesStayInTheirTarget(inputs: seq<Input>, version: string, f: Field, u: string, v: string) returns (k: nat)
    requires AllFine(inputs, version) && AllGood(CombinedOf(inputs, version).dependencies)
    requires Edge(CombinedOf(inputs, version).dependencies, f, u, v)
    ensures k < |inputs| && HasRoot(inputs[k].payload)
    ensures u in TargetRefs(inputs[k].target, NamesOf(inputs[k].payload))
      && v in TargetRefs(inputs[k].target, NamesOf(inputs[k].payload))
  {
    CombinedEdges(inputs, version, f, u, v);
    hide CombinedOf;
    k :| 0 <= k < |inputs| && TargetHas(inputs[k], version, f, u, v);
    var ds, names := NodesIn(inputs[k]), NamesOf(inputs[k].payload);
    assert DependenciesFine(ds, names);
    hide SbomFine, GoodNode, NamesOf, NodesIn, TargetRef;
    var a, b :| Edge(ds, f, a, b) && u == TargetRef(inputs[k].target, a) && v == TargetRef(inputs[k].target, b);
    var i :| 0 <= i < |ds| && RefOf(ds[i]) == a && b in Related(ds[i], f);
    assert Inside(ds[i], names);
  }

  // ----- the combined references -----

  lemma PartReferences(input: Input, version: string)
    requires SbomFine(input.payload, version) && IsTarget(input.target)
    ensures NoDuplicates(ForestReferences(PartOf(input, version, {}).components))
    ensures Names(ForestReferences(PartOf(input, version, {}).components)) == PartOf(input, version, {}).references
  {
    var t, trees := input.target, Trees(input.payload);
    AllCopiedReferences(trees, t);
    PrefixedNames(t, ForestReferences(trees));
    hide AllWellFormed, ForestReferences, NoDuplicates, Names, TargetRefs, CopiedAll, DependenciesFine, CopiedNodes,
      Refs;
  }

  /** All references of the combined components are pairwise distinct, without any check that compares targets. */
  lemma {:induction false} CombinedReferencesDistinct(inputs: seq<Input>, version: string)
    requires AllFine(inputs, version) && Targets(inputs)
    ensures NoDuplicates(ForestReferences(CombinedOf(inputs, version).components))
    ensures Names(ForestReferences(CombinedOf(inputs, version).components)) == AllNames(inputs, version)
    decreases |inputs|
  {
    hide SbomFine, GoodNode, ForestReferences, NoDuplicates, Names, PartOf, IsTarget, TargetRef, Known;
    if inputs != [] {
      var n := |inputs| - 1;
      var front, last := inputs[..n], inputs[n];
      assert AllFine(front, version) && SbomFine(last.payload, version);
      assert Known(last.target) && Targets(front);
      var combined, part := CombinedOf(front, version).components, PartOf(last, version, {});
      CombinedReferencesDistinct(front, version);
      TargetsHaveNoColon(last.target);
      OthersUntouched(front, version, last.target);
      NewReferences(AllNames(front, version), last, version);
      PartReferences(last, version);
      ForestAppend(combined, part.components);
      NoDuplicatesAppend(ForestReferences(combined), ForestReferences(part.components));
      NamesAppend(ForestReferences(combined), ForestReferences(part.components));
    } else {
      NoReferences();
    }
  }

  lemma NoReferences()
    ensures ForestReferences([]) == [] && NoDuplicates(ForestReferences([])) && Names(ForestReferences([])) == {}
  {
  }

  lemma NamesAppend(a: seq<string>, b: seq<string>)
    ensures Names(a + b) == Names(a) + Names(b)
  {
  }

  /** `aggregate_reference` */
  function AggregateReference(version: string): string {
    "urn:ancestryllm:desktop:" + version
  }

  /** The reference of the combined SBOM itself is none of a target's. */
  lemma AggregateReferenceIsNew(version: string, target: string, reference: string)
    ensures AggregateReference(version) != TargetRef(target, reference)
  {
    var x, y := "urn:ancestryllm:desktop:" + version, TargetRef(target, reference);
    var prefix := "urn:ancestryllm:target:";
    assert y == prefix + (target + ":" + reference);
    assert x[16] == 'd' && prefix[16] == 't' && y[16] == prefix[16];
  }
}
