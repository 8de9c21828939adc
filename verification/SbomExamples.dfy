/** A document whose order shows in what `canonicalize_sbom` (scripts/generate_sbom.py:257-307) makes of it: the project
  * is listed twice, once with a flag written true and once with the same flag written 1.
  */
module SbomExamples {
  import opened CycloneDx
  import opened Digraph
  import opened Json
  import opened SbomCanonical
  import opened SbomComponentLaws
  import opened SbomComponents
  import opened SbomGraph
  import opened SbomMerging
  import opened SbomReordering
  import opened SbomSanitizing

  // ----- its components -----

  const PLAIN: map<string, Json> := map["name" := Str("p"), "version" := Str("1"), "type" := Str("library")]

  function Spelling(flag: Json, reference: string): Json {
    Obj(PLAIN["flag" := flag][BOM_REF := Str(reference)])
  }

  const PROJECT := Project("p", "1", x => x)

  lemma SpellingFine(flag: Json, reference: string)
    requires reference != ""
    ensures
      var c := Spelling(flag, reference);
      && HasReference(c) && ReferenceOf(c) == reference && IsProject(c, PROJECT) && Identified(c, PROJECT)
      && Body(c) == Obj(PLAIN["flag" := flag])
  {
    KeysApart();
    assert |"flag"| == 4 && |BOM_REF| == 7 && |PURL| == 4 && "flag"[0] == 'f' && PURL[0] == 'p' && "name"[0] == 'n'
      && "type"[0] == 't';
    assert "flag" !in {BOM_REF, PURL, "name", "version", "type"};
    var c := Spelling(flag, reference);
    assert Body(c).fields == PLAIN["flag" := flag];
  }

  lemma SpellingsEqual()
    ensures PythonEqual(Obj(PLAIN["flag" := Bool(true)]), Obj(PLAIN["flag" := Int(1)]))
    ensures Obj(PLAIN["flag" := Bool(true)]) != Obj(PLAIN["flag" := Int(1)])
  {
    var f, g := PLAIN["flag" := Bool(true)], PLAIN["flag" := Int(1)];
    assert f["flag"] != g["flag"];
    assert Norm(Obj(f)).fields == Norm(Obj(g)).fields;
  }

  lemma {:induction false} TwoProjects(a: Json, b: Json, p: Project)
    requires HasReference(a) && HasReference(b) && IsProject(a, p) && IsProject(b, p)
    ensures Projects([a, b], p) == [a, b]
  {
    hide HasReference, IsProject;
    assert [a, b][1..] == [b] && [b][1..] == [];
    assert Projects([], p) == [];
    assert Projects([b], p) == [b];
  }

  /** The two components, in this order. */
  function Spellings(): seq<Json> {
    [Spelling(Bool(true), "a"), Spelling(Int(1), "b")]
  }

  /** What the two are, without how they are written. */
  lemma SpellingsAre()
    ensures
      var cs := Spellings();
      && |cs| == 2 && AllReferenced(cs) && ReferenceOf(cs[0]) == "a" && ReferenceOf(cs[1]) == "b" && "a" != "b"
      && (forall i :: 0 <= i < 2 ==> IsProject(cs[i], PROJECT) && Identified(cs[i], PROJECT))
      && (forall i :: 0 <= i < 2 ==> PythonEqual(Body(cs[i]), Body(cs[0]))) && Body(cs[1]) != Body(cs[0])
        && Projects(cs, PROJECT) == cs
  {
    SpellingFine(Bool(true), "a");
    SpellingFine(Int(1), "b");
    SpellingsEqual();
    hide Spelling, HasReference, ReferenceOf, IsProject, Identified, Body, Norm, Projects;
    TwoProjects(Spelling(Bool(true), "a"), Spelling(Int(1), "b"), PROJECT);
    assert "a"[0] != "b"[0];
  }

  lemma SpellingsFine()
    ensures ComponentsFine(Spellings(), PROJECT) && !SameBodies(Spellings(), PROJECT)
    ensures Projects(Spellings(), PROJECT) == Spellings()
  {
    hide Spelling, HasReference, ReferenceOf, IsProject, Identified, Body, PythonEqual, Projects, MergedComponents;
    SpellingsAre();
    var cs := Spellings();
    assert cs[0] in cs && cs[1] in cs;
    DistinctIffReferenceFree(cs, PROJECT);
  }

  lemma SpellingsAliases()
    ensures AllReferenced(Spellings()) && AliasesOf(Spellings(), PROJECT) == map["a" := "p==1", "b" := "p==1"]
  {
    hide Spellings, HasReference, ReferenceOf, IsProject, Identified, Body, PythonEqual, Projects;
    SpellingsAre();
    assert PROJECT.Reference() == "p==1";
    var cs := Spellings();
    assert References(cs) == {"a", "b"};
  }

  lemma SpellingsCatalogue()
    requires ComponentsFine(Spellings(), PROJECT) && Projects(Spellings(), PROJECT) == Spellings()
    ensures Catalogue(Spellings(), PROJECT).Keys == {"p==1"}
  {
    hide Spellings, ReferenceOf, IsProject, Identified, Body, PythonEqual, CanonicalComponent, MergedComponents,
      Projects, Agree, Distinct, Catalogue;
    SpellingsAre();
    var cs := Spellings();
    assert PROJECT.Reference() == "p==1";
    assert HasReference(cs[0]) && cs[0].Obj?;
    var kept, merged := CanonicalComponent(cs[0], PROJECT), MergedComponents(cs, PROJECT);
    CatalogueKeys(cs, PROJECT);
    CanonicalReferenced(cs[0], PROJECT);
    forall c ensures c in merged <==> c == kept {
      CatalogueMembers(cs, PROJECT, c);
      if c in cs {
        assert c in Projects(cs, PROJECT);
      }
    }
    assert kept in merged;
    forall i | 0 <= i < |merged| ensures merged[i] == kept {
      assert merged[i] in merged;
    }
  }

  // ----- the document -----

  function Node(reference: string): Json {
    Obj(map[REF := Str(reference)])
  }

  function Dependencies(): seq<Json> {
    [Node("a"), Node("b")]
  }

  const EXAMPLE := Obj(map[
    "bomFormat" := Str("CycloneDX"), "specVersion" := Str("1.6"), "version" := Int(1), METADATA := Obj(map[]),
    COMPONENTS := Arr(Spellings()), DEPENDENCIES := Arr(Dependencies())])

  const SETTING := Setting(PROJECT, x => false)

  lemma NodeFine(reference: string)
    requires reference != ""
    ensures IsNode(Node(reference)) && RefOf(Node(reference)) == reference
    ensures Edges(Node(reference), DependsOn) == {} && Edges(Node(reference), Provides) == {}
  {
    KeysDiffer();
  }

  lemma NothingAdded()
    ensures With(map[], "p==1", {}) == map["p==1" := {}] && With(map["p==1" := {}], "p==1", {}) == map["p==1" := {}]
  {
    var none: set<string> := {};
    assert none + none == none;
  }

  lemma DependenciesMerge(f: Field)
    ensures AllNodes(Dependencies()) && Merged(Dependencies(), f, map["a" := "p==1", "b" := "p==1"])
      == map["p==1" := {}]
  {
    NodeFine("a");
    NodeFine("b");
    hide Node, IsNode, RefOf, Edges;
    assert Key(f) in {DEPENDS_ON, PROVIDES};
    var deps, aliases := Dependencies(), map["a" := "p==1", "b" := "p==1"];
    assert deps[..1] == [deps[0]] && deps[..1][..0] == [];
    assert Merged(deps[..1][..0], f, aliases) == map[];
    assert Images(deps[0], f, aliases) == {} && Images(deps[1], f, aliases) == {};
    NothingAdded();
    assert deps[..1][|deps[..1]| - 1] == deps[0];
    assert Merged(deps[..1], f, aliases) == map["p==1" := {}];
  }

  lemma DependenciesFine()
    ensures Acceptable(Dependencies(), map["a" := "p==1", "b" := "p==1"], {"p==1"})
  {
    hide Node, IsNode, Merged;
    DependenciesMerge(DependsOn);
    DependenciesMerge(Provides);
  }

  lemma PlainString(x: string)
    requires x != "" && x[0] !in {'/', '\\'} && (|x| > 1 ==> x[1] != ':')
    ensures Settled(Str(x), SETTING.file) && !IsLocalPath(x, SETTING.file)
  {
  }

  lemma SpellingSettled(flag: Json, reference: string)
    requires flag.Bool? || flag.Int?
    requires reference in {"a", "b"}
    ensures Settled(Spelling(flag, reference), SETTING.file)
  {
    PlainString(reference);
    PlainString("p");
    PlainString("1");
    PlainString("library");
    KeysDistinct();
    assert REFERENCES !in {"name", "version", "type", "flag", BOM_REF} by {
      assert |REFERENCES| == 18;
    }
    hide IsLocalPath, REFERENCES;
  }

  lemma NodeSettles(reference: string)
    requires reference in {"a", "b"}
    ensures Settled(Node(reference), SETTING.file)
  {
    PlainString(reference);
    KeysDistinct();
    hide IsLocalPath, REFERENCES;
  }

  lemma ExampleSettled()
    ensures Settled(EXAMPLE, SETTING.file)
  {
    hide IsLocalPath, Spelling, Node, Settled, PLAIN;
    SpellingSettled(Bool(true), "a");
    SpellingSettled(Int(1), "b");
    NodeSettles("a");
    NodeSettles("b");
    SettledList(Spellings(), SETTING.file);
    SettledList(Dependencies(), SETTING.file);
    FieldsSettle();
  }

  lemma FieldsSettle()
    requires Settled(Arr(Spellings()), SETTING.file) && Settled(Arr(Dependencies()), SETTING.file)
    ensures Settled(EXAMPLE, SETTING.file)
  {
    HeadKeys();
    KeysDistinct();
    PlainString("CycloneDX");
    PlainString("1.6");
    assert Settled(Int(1), SETTING.file) && Settled(Obj(map[]), SETTING.file);
    hide IsLocalPath, Spellings, Dependencies, REFERENCES, METADATA, COMPONENTS, DEPENDENCIES;
  }

  lemma ExampleFields()
    ensures EXAMPLE.Obj?
    ensures EXAMPLE.Get(METADATA) == Obj(map[])
    ensures EXAMPLE.Get(COMPONENTS) == Arr(Spellings()) && EXAMPLE.Get(DEPENDENCIES) == Arr(Dependencies())
    ensures EXAMPLE.Get("bomFormat") == Str("CycloneDX") && EXAMPLE.Get("specVersion") == Str("1.6")
    ensures EXAMPLE.Get("version") == Int(1) && SERIAL_NUMBER !in EXAMPLE.fields
  {
    hide Spellings, Dependencies;
    HeadKeys();
    KeysDistinct();
    assert |"bomFormat"| == 9 && |"specVersion"| == 11 && |"version"| == 7;
    hide REFERENCES, METADATA, COMPONENTS, DEPENDENCIES, SERIAL_NUMBER;
  }

  lemma OneIsOne()
    ensures PythonEqual(Int(1), Int(1))
  {
  }

  lemma ExampleAccepted()
    ensures Accepts(EXAMPLE, SETTING) && !SameSpellings(EXAMPLE, SETTING)
  {
    hide IsLocalPath, Spellings, Dependencies, Settled, ComponentsFine, Acceptable, SameBodies, Catalogue, Projects,
      AliasesOf, Cleanable, Stripped, EXAMPLE, PythonEqual, Trimmed;
    ExampleFields();
    ExampleSettled();
    SpellingsFine();
    SpellingsAliases();
    SpellingsCatalogue();
    DependenciesFine();
    TrimmedStays(EXAMPLE);
    SettledStays(EXAMPLE, SETTING.file);
    PlainString("p==1");
    PlainString("pkg:pypi/p@1");
    assert PROJECT.Reference() == "p==1" && PROJECT.Purl() == "pkg:pypi/p@1";
    OneIsOne();
    assert Document(EXAMPLE, SETTING) == EXAMPLE;
  }

  /** The document is accepted, and so is a reordered one, but the results differ. */
  lemma OrderCanShow() returns (w: Json)
    ensures Accepts(EXAMPLE, SETTING) && Reordered(EXAMPLE, w) && Accepts(w, SETTING)
    ensures Form(w, SETTING) != Form(EXAMPLE, SETTING)
  {
    hide *;
    ExampleAccepted();
    w := SpellingsShow(EXAMPLE, SETTING);
  }
}
