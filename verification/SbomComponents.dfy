/** The components of an SBOM and the one that stands for the project (scripts/generate_sbom.py:114-198). */
module SbomComponents {
  import opened CycloneDx
  import opened Json
  import opened SbomGraph
  import opened SbomSanitizing
  import opened Wrappers

  const PURL := "purl"
  const COMPONENT_INVALID := "SBOM_COMPONENT_INVALID"
  const COMPONENT_CONFLICT := "SBOM_COMPONENT_CONFLICT"
  const PROJECT_IDENTITY := "SBOM_PROJECT_IDENTITY"

  /** The expected project; `normalize` is `_normalized_name`. */
  datatype Project = Project(name: string, version: string, normalize: string -> string) {
    function Reference(): string { normalize(name) + "==" + version }

    function Purl(): string { "pkg:pypi/" + normalize(name) + "@" + version }
  }

  // ----- Python's equality of JSON values -----

  /** Python's `==` takes True, 1 and 1.0 for equal: two values are equal when their normal forms are the same. */
  function Norm(v: Json): Json {
    match v
    case Bool(b) => Float(if b then 1.0 else 0.0)
    case Int(i) => Float(i as real)
    case Arr(items) => Arr(NormItems(items))
    case Obj(fields) => Obj(map k | k in fields :: Norm(fields[k]))
    case _ => v
  }

  function NormItems(items: seq<Json>): (r: seq<Json>)
    ensures |r| == |items|
  {
    if items == [] then [] else [Norm(items[0])] + NormItems(items[1..])
  }

  predicate PythonEqual(v: Json, w: Json) {
    Norm(v) == Norm(w)
  }

  // ----- references -----

  predicate HasReference(c: Json) {
    c.Obj? && BOM_REF in c.fields && IsName(c.fields[BOM_REF])
  }

  function ReferenceOf(c: Json): string
    requires HasReference(c)
  {
    c.fields[BOM_REF].s
  }

  ghost predicate AllReferenced(cs: seq<Json>) {
    forall i :: 0 <= i < |cs| ==> HasReference(cs[i])
  }

  ghost predicate Distinct(cs: seq<Json>)
    requires AllReferenced(cs)
  {
    forall i, j :: 0 <= i < j < |cs| ==> ReferenceOf(cs[i]) != ReferenceOf(cs[j])
  }

  /** What `_canonicalize_components` accepts. */
  ghost predicate WellReferenced(cs: seq<Json>) {
    AllReferenced(cs) && Distinct(cs)
  }

  function References(cs: seq<Json>): set<string>
    requires AllReferenced(cs)
  {
    set i | 0 <= i < |cs| :: ReferenceOf(cs[i])
  }

  /** `_canonicalize_components` */
  method CanonicalizeComponents(raw: seq<Json>) returns (r: Result<seq<Json>>)
    ensures r.Ok? <==> WellReferenced(raw)
    ensures r.Ok? ==> r.value == raw
    ensures r.Err? ==> r.code == STRUCTURE || r.code == COMPONENT_INVALID
  {
    hide IsName;
    var components: seq<Json> := [];
    var references: set<string> := {};
    for i := 0 to |raw|
      invariant components == raw[..i] && WellReferenced(components) && references == References(components)
    {
      var component := raw[i];
      if !component.Obj? {
        return Err(STRUCTURE);
      }
      if !HasReference(component) || ReferenceOf(component) in references {
        return Err(COMPONENT_INVALID);
      }
      references := references + {ReferenceOf(component)};
      components := components + [component];
    }
    r := Ok(components);
  }

  // ----- the component of the project -----

  predicate IsProject(c: Json, p: Project)
    requires c.Obj?
  {
    c.Get("name").Str? && p.normalize(c.Get("name").s) == p.normalize(p.name)
  }

  /** `_project_body` */
  function Body(c: Json): Json
    requires c.Obj?
  {
    Obj(c.fields - {BOM_REF, PURL})
  }

  /** The checks on one project component other than the comparison of the bodies. */
  predicate Identified(c: Json, p: Project)
    requires c.Obj?
  {
    && c.Get("version") == Str(p.version) && c.Get("type") == Str("library")
    && (c.Get(PURL).Null? || c.Get(PURL) == Str(p.Purl()))
  }

  function Projects(cs: seq<Json>, p: Project): (r: seq<Json>)
    requires AllReferenced(cs)
    ensures forall x :: x in r <==> x in cs && IsProject(x, p)
    ensures AllReferenced(r)
  {
    if cs == [] then []
    else
      assert AllReferenced(cs[1..]);
      assert cs == [cs[0]] + cs[1..];
      (if IsProject(cs[0], p) then [cs[0]] else []) + Projects(cs[1..], p)
  }

  /** `component not in project_components`, which compares as Python does. */
  predicate NotAmong(c: Json, projects: seq<Json>) {
    forall i :: 0 <= i < |projects| ==> !PythonEqual(c, projects[i])
  }

  function Remaining(cs: seq<Json>, projects: seq<Json>): seq<Json> {
    if cs == [] then []
    else (if NotAmong(cs[0], projects) then [cs[0]] else []) + Remaining(cs[1..], projects)
  }

  function CanonicalComponent(c: Json, p: Project): Json
    requires c.Obj?
  {
    Obj(c.fields[BOM_REF := Str(p.Reference())][PURL := Str(p.Purl())])
  }

  ghost predicate Agree(projects: seq<Json>, p: Project)
    requires AllReferenced(projects)
  {
    && projects != []
    && (forall i :: 0 <= i < |projects| ==> Identified(projects[i], p))
    && (forall i :: 0 <= i < |projects| ==> PythonEqual(Body(projects[i]), Body(projects[0])))
  }

  function AliasesOf(projects: seq<Json>, p: Project): Aliases
    requires AllReferenced(projects)
  {
    map r | r in References(projects) :: p.Reference()
  }

  datatype Merge = Merge(components: seq<Json>, aliases: Aliases)

  lemma AliasesStep(projects: seq<Json>, i: nat, p: Project)
    requires AllReferenced(projects) && i < |projects|
    ensures AliasesOf(projects[..i + 1], p) == AliasesOf(projects[..i], p)[ReferenceOf(projects[i]) := p.Reference()]
  {
    hide HasReference;
    assert projects[..i + 1] == projects[..i] + [projects[i]];
    assert References(projects[..i + 1]) == References(projects[..i]) + {ReferenceOf(projects[i])};
  }

  /** The loop over the project components. */
  method CheckProjects(projects: seq<Json>, p: Project) returns (r: Result<Aliases>)
    requires AllReferenced(projects) && projects != []
    ensures r.Ok? <==> Agree(projects, p)
    ensures r.Ok? ==> r.value == AliasesOf(projects, p)
    ensures r.Err? ==> r.code == COMPONENT_CONFLICT || r.code == PROJECT_IDENTITY
  {
    hide Identified, Body, PythonEqual, IsName, References, AliasesOf;
    var aliases: Aliases := map[];
    assert aliases == AliasesOf(projects[..0], p) by { NoAliases(projects[..0], p); }
    for i := 0 to |projects|
      invariant forall j :: 0 <= j < i ==> Identified(projects[j], p)
      invariant forall j :: 0 <= j < i ==> PythonEqual(Body(projects[j]), Body(projects[0]))
      invariant aliases == AliasesOf(projects[..i], p)
    {
      var component := projects[i];
      if !Identified(component, p) {
        return Err(if PurlConflicts(component, p) then COMPONENT_CONFLICT else PROJECT_IDENTITY);
      }
      if !PythonEqual(Body(component), Body(projects[0])) {
        return Err(COMPONENT_CONFLICT);
      }
      AliasesStep(projects, i, p);
      aliases := aliases[ReferenceOf(component) := p.Reference()];
    }
    assert projects[..|projects|] == projects;
    r := Ok(aliases);
  }

  lemma NoAliases(projects: seq<Json>, p: Project)
    requires projects == []
    ensures AliasesOf(projects, p) == map[]
  {
  }

  /** `_canonicalize_project_component` */
  method CanonicalizeProjectComponent(cs: seq<Json>, p: Project) returns (r: Result<Merge>)
    requires WellReferenced(cs)
    ensures r.Ok? <==> Agree(Projects(cs, p), p)
    ensures r.Ok? ==>
      r.value == Merge(Remaining(cs, Projects(cs, p)) + [CanonicalComponent(Projects(cs, p)[0], p)],
        AliasesOf(Projects(cs, p), p))
    ensures r.Err? ==> r.code == COMPONENT_CONFLICT || r.code == PROJECT_IDENTITY
  {
    hide IsProject, Identified, Body, PythonEqual, CanonicalComponent, IsName, AliasesOf, Remaining;
    var projects := Projects(cs, p);
    if projects == [] {
      return Err(PROJECT_IDENTITY);
    }
    var aliases :- CheckProjects(projects, p);
    r := Ok(Merge(Remaining(cs, projects) + [CanonicalComponent(projects[0], p)], aliases));
  }

  predicate PurlConflicts(c: Json, p: Project)
    requires c.Obj?
  {
    c.Get("version") == Str(p.version) && c.Get("type") == Str("library")
  }

  // ----- the components that remain -----

  lemma EqualValuesShareReferences(c: Json, d: Json)
    requires HasReference(c) && HasReference(d) && PythonEqual(c, d)
    ensures ReferenceOf(c) == ReferenceOf(d)
  {
    assert Norm(c).fields[BOM_REF] == Norm(d).fields[BOM_REF];
  }

  /** Removing the project components by equality removes them and nothing else. */
  lemma {:induction false} RemainingAreTheOthers(cs: seq<Json>, all: seq<Json>, p: Project)
    requires WellReferenced(all) && AllReferenced(cs) && forall x :: x in cs ==> x in all
    ensures forall x :: x in Remaining(cs, Projects(all, p)) <==> x in cs && !IsProject(x, p)
  {
    hide Norm, IsProject, IsName;
    var projects := Projects(all, p);
    if cs != [] {
      var c := cs[0];
      assert cs == [c] + cs[1..];
      RemainingAreTheOthers(cs[1..], all, p);
      if IsProject(c, p) {
        var i :| 0 <= i < |projects| && projects[i] == c;
        assert PythonEqual(c, projects[i]);
      } else {
        forall i | 0 <= i < |projects| ensures !PythonEqual(c, projects[i]) {
          OtherIsNotEqual(c, projects[i], all, p);
        }
      }
    }
  }

  lemma OtherIsNotEqual(c: Json, d: Json, all: seq<Json>, p: Project)
    requires WellReferenced(all) && c in all && d in all && IsProject(d, p) && !IsProject(c, p)
    ensures !PythonEqual(c, d)
  {
    hide Norm, IsProject;
    var i :| 0 <= i < |all| && all[i] == c;
    var j :| 0 <= j < |all| && all[j] == d;
    if PythonEqual(c, d) {
      EqualValuesShareReferences(c, d);
    }
  }
}
