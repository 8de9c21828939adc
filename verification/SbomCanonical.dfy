/** `canonicalize_sbom` (scripts/generate_sbom.py:257-307) as a whole. */
module SbomCanonical {
  import opened CycloneDx
  import opened Digraph
  import opened Json
  import opened SbomComponentLaws
  import opened SbomComponents
  import opened SbomGraph
  import opened SbomMerging
  import opened SbomSanitizing
  import opened Sorting
  import opened Wrappers

  const SERIAL_NUMBER := "serialNumber"
  const TIMESTAMP := "timestamp"
  const SCHEMA_UNSUPPORTED := "SBOM_SCHEMA_UNSUPPORTED"

  datatype Setting = Setting(project: Project, file: string -> bool)

  // ----- what is accepted, and what it becomes -----

  predicate Headed(payload: Json, s: Setting) {
    && payload.Obj?
    && payload.Get("bomFormat") == Str("CycloneDX") && payload.Get("specVersion") == Str("1.6")
    && PythonEqual(payload.Get("version"), Int(1))
    && s.project.name != "" && s.project.version != ""
    && payload.Get(METADATA).Obj?
  }

  /** The document without the fields that differ from one run of the tool to the next. */
  function Trimmed(payload: Json): Json
    requires payload.Obj? && payload.Get(METADATA).Obj?
  {
    Obj((payload.fields - {SERIAL_NUMBER})[METADATA := Obj(payload.Get(METADATA).fields - {TIMESTAMP})])
  }

  function Document(payload: Json, s: Setting): (doc: Json)
    requires payload.Obj? && payload.Get(METADATA).Obj?
    ensures doc.Obj?
  {
    Stripped(Trimmed(payload), s.file)
  }

  function ItemsOf(doc: Json, key: string): seq<Json>
    requires doc.Obj?
  {
    if doc.Get(key).Arr? then doc.Get(key).items else []
  }

  function DocumentAliases(doc: Json, p: Project): Aliases
    requires doc.Obj? && AllReferenced(ItemsOf(doc, COMPONENTS))
  {
    AliasesOf(Projects(ItemsOf(doc, COMPONENTS), p), p)
  }

  ghost predicate Assemblable(doc: Json, p: Project) {
    && doc.Obj? && doc.Get(COMPONENTS).Arr? && ComponentsFine(ItemsOf(doc, COMPONENTS), p)
    && doc.Get(DEPENDENCIES).Arr?
    && Acceptable(ItemsOf(doc, DEPENDENCIES), DocumentAliases(doc, p), Catalogue(ItemsOf(doc, COMPONENTS), p).Keys)
  }

  function DocumentNodes(doc: Json, p: Project): Nodes
    requires Assemblable(doc, p)
  {
    Collected(ItemsOf(doc, DEPENDENCIES), DocumentAliases(doc, p))
  }

  function Assembled(doc: Json, p: Project): Json
    requires Assemblable(doc, p)
  {
    Obj(doc.fields[COMPONENTS := Arr(Listed(Catalogue(ItemsOf(doc, COMPONENTS), p)))]
          [DEPENDENCIES := Arr(Written(DocumentNodes(doc, p)))])
  }

  /** The names of the project are no local paths themselves. */
  predicate NamesAllowed(s: Setting) {
    !IsLocalPath(s.project.Reference(), s.file) && !IsLocalPath(s.project.Purl(), s.file)
  }

  ghost predicate Accepts(payload: Json, s: Setting) {
    && Headed(payload, s) && Cleanable(Trimmed(payload), s.file)
    && Assemblable(Document(payload, s), s.project) && NamesAllowed(s)
  }

  function Form(payload: Json, s: Setting): Json
    requires Accepts(payload, s)
  {
    Assembled(Document(payload, s), s.project)
  }

  // ----- the result is settled -----

  lemma KeysDistinct()
    ensures REFERENCES !in {COMPONENTS, DEPENDENCIES, METADATA, BOM_REF, PURL, REF, DEPENDS_ON, PROVIDES}
    ensures COMPONENTS != DEPENDENCIES && METADATA !in {COMPONENTS, DEPENDENCIES, SERIAL_NUMBER}
    ensures SERIAL_NUMBER !in {COMPONENTS, DEPENDENCIES}
  {
    assert |REFERENCES| == 18 && |COMPONENTS| == 10 && |DEPENDENCIES| == 12 && |METADATA| == 8 && |SERIAL_NUMBER| == 12;
    assert |BOM_REF| == 7 && |PURL| == 4 && |REF| == 3 && |DEPENDS_ON| == 9 && |PROVIDES| == 8;
    assert SERIAL_NUMBER[0] == 's' && DEPENDENCIES[0] == 'd';
  }

  lemma SettledUpdate(fields: map<string, Json>, key: string, v: Json, file: string -> bool)
    requires Settled(Obj(fields), file) && Settled(v, file) && key != REFERENCES
    ensures Settled(Obj(fields[key := v]), file)
  {
  }

  lemma SettledString(x: string, file: string -> bool)
    requires !IsLocalPath(x, file)
    ensures Settled(Str(x), file)
  {
  }

  lemma SettledList(items: seq<Json>, file: string -> bool)
    requires forall x :: x in items ==> Settled(x, file)
    ensures Settled(Arr(items), file)
  {
    assert forall i :: 0 <= i < |items| ==> items[i] in items;
  }

  lemma SettledItem(items: seq<Json>, x: Json, file: string -> bool)
    requires Settled(Arr(items), file) && x in items
    ensures Settled(x, file)
  {
  }

  lemma CanonicalSettled(c: Json, s: Setting)
    requires c.Obj? && Settled(c, s.file) && NamesAllowed(s)
    ensures Settled(CanonicalComponent(c, s.project), s.file)
  {
    KeysDistinct();
    SettledString(s.project.Reference(), s.file);
    SettledString(s.project.Purl(), s.file);
    hide Settled, IsLocalPath;
    SettledUpdate(c.fields, BOM_REF, Str(s.project.Reference()), s.file);
    SettledUpdate(c.fields[BOM_REF := Str(s.project.Reference())], PURL, Str(s.project.Purl()), s.file);
  }

  lemma ListedSettled(cs: seq<Json>, s: Setting)
    requires ComponentsFine(cs, s.project) && Settled(Arr(cs), s.file) && NamesAllowed(s)
    ensures Settled(Arr(Listed(Catalogue(cs, s.project))), s.file)
  {
    var p := s.project;
    var l := Listed(Catalogue(cs, p));
    var first := Projects(cs, p)[0];
    assert first in Projects(cs, p) && first.Obj?;
    assert first in cs;
    hide Settled, IsName, Agree, Distinct, Listed, Catalogue, CanonicalComponent, IsLocalPath, NamesAllowed;
    SettledItem(cs, first, s.file);
    CanonicalSettled(first, s);
    forall x | x in l ensures Settled(x, s.file) {
      ListedMerged(cs, p, x);
      CatalogueMembers(cs, p, x);
      if x in cs {
        SettledItem(cs, x, s.file);
      }
    }
    SettledList(l, s.file);
  }

  /** Every reference of the catalogue is allowed as a string. */
  lemma CatalogueNames(cs: seq<Json>, s: Setting, r: string)
    requires ComponentsFine(cs, s.project) && Settled(Arr(cs), s.file) && NamesAllowed(s)
    requires r in Catalogue(cs, s.project)
    ensures r != "" && !IsLocalPath(r, s.file)
  {
    hide ComponentsFine, WellReferenced, Listed, Catalogue, IsLocalPath, ReferenceOf, HasReference, Settled,
      NamesAllowed;
    ListedSettled(cs, s);
    var m := Catalogue(cs, s.project);
    ListedMerged(cs, s.project, m[r]);
    ListedMembers(m, m[r]);
    SettledItem(Listed(m), m[r], s.file);
    SettledReference(m[r], s.file);
  }

  lemma SettledReference(c: Json, file: string -> bool)
    requires HasReference(c) && Settled(c, file)
    ensures ReferenceOf(c) != "" && !IsLocalPath(ReferenceOf(c), file)
  {
    hide IsLocalPath;
    assert Settled(c.fields[BOM_REF], file);
  }

  lemma NodeSettled(x: string, dependsOn: set<string>, provided: set<string>, file: string -> bool)
    requires !IsLocalPath(x, file) && forall y :: y in dependsOn + provided ==> !IsLocalPath(y, file)
    ensures Settled(NodeOf(x, dependsOn, provided), file)
  {
    KeysDistinct();
    var node := map[REF := Str(x)];
    assert Settled(Obj(node), file);
    hide Names, IsLocalPath, Settled, Ascending;
    NamesSettled(dependsOn, file);
    NamesSettled(provided, file);
    var node1 := if dependsOn == {} then node else node[DEPENDS_ON := Names(dependsOn)];
    SettledUpdate(node, DEPENDS_ON, Names(dependsOn), file);
    SettledUpdate(node1, PROVIDES, Names(provided), file);
  }

  lemma NamesSettled(names: set<string>, file: string -> bool)
    requires forall y :: y in names ==> !IsLocalPath(y, file)
    ensures Settled(Names(names), file)
  {
    hide IsLocalPath, Ascending;
    var order := SortedStrings(names);
    forall x | x in Strings(order) ensures Settled(x, file) {
      var i :| 0 <= i < |order| && Strings(order)[i] == x;
      assert order[i] in names;
    }
    SettledList(Strings(order), file);
  }

  lemma WrittenNodeSettled(n: Nodes, x: string, file: string -> bool)
    requires Canonical(n) && x in n.dependsOn && forall y :: y in n.dependsOn ==> !IsLocalPath(y, file)
    ensures Settled(NodeOf(x, Targets(n.dependsOn, x), Targets(n.provided, x)), file)
  {
    CanonicalParts(n);
    hide IsLocalPath, Settled, Canonical, NodeOf, Targets;
    var dependsOn, provided := Targets(n.dependsOn, x), Targets(n.provided, x);
    assert dependsOn == Targets(Of(n, DependsOn), x) && provided == Targets(Of(n, Provides), x);
    NodeSettled(x, dependsOn, provided, file);
  }

  lemma WrittenSettled(n: Nodes, file: string -> bool)
    requires Canonical(n) && forall x :: x in n.dependsOn ==> !IsLocalPath(x, file)
    ensures Settled(Arr(Written(n)), file)
  {
    CanonicalSame(n);
    WrittenLength(n);
    var order := SortedStrings(n.dependsOn.Keys);
    NodesOfAt(n, order);
    var w := Written(n);
    hide IsLocalPath, Ascending, Settled, Canonical, NodeOf, NodesOf, Targets, Written;
    forall d | d in w ensures Settled(d, file) {
      var i :| 0 <= i < |w| && w[i] == d;
      assert order[i] in n.dependsOn;
      WrittenNodeSettled(n, order[i], file);
    }
    SettledList(w, file);
  }

  ghost predicate DocumentSettled(doc: Json, s: Setting) {
    Assemblable(doc, s.project) && Settled(doc, s.file)
  }

  lemma DocumentParts(doc: Json, s: Setting)
    requires DocumentSettled(doc, s)
    ensures ComponentsFine(ItemsOf(doc, COMPONENTS), s.project) && Settled(Arr(ItemsOf(doc, COMPONENTS)), s.file)
  {
    hide ComponentsFine, Acceptable, IsLocalPath;
    assert COMPONENTS in doc.fields;
    assert Settled(doc.fields[COMPONENTS], s.file);
  }

  lemma DocumentNodesCanonical(doc: Json, s: Setting)
    requires DocumentSettled(doc, s) && NamesAllowed(s)
    ensures Canonical(DocumentNodes(doc, s.project))
    ensures DocumentNodes(doc, s.project).dependsOn.Keys == Catalogue(ItemsOf(doc, COMPONENTS), s.project).Keys
    ensures forall x :: x in DocumentNodes(doc, s.project).dependsOn ==> !IsLocalPath(x, s.file)
  {
    var cs := ItemsOf(doc, COMPONENTS);
    var names := Catalogue(cs, s.project).Keys;
    DocumentParts(doc, s);
    hide ComponentsFine, IsLocalPath, Catalogue, Collected, Canonical, NamesAllowed, Settled, AllNodes, AllReferenced,
      Projects;
    forall r | r in names ensures r != "" && !IsLocalPath(r, s.file) {
      CatalogueNames(cs, s, r);
    }
    CollectedIsCanonical(ItemsOf(doc, DEPENDENCIES), DocumentAliases(doc, s.project), names);
  }

  /** The assembled document is settled: the second sanitising finds nothing. */
  lemma AssembledSettled(doc: Json, s: Setting)
    requires DocumentSettled(doc, s) && NamesAllowed(s)
    ensures Settled(Assembled(doc, s.project), s.file)
  {
    DocumentParts(doc, s);
    DocumentNodesCanonical(doc, s);
    KeysDistinct();
    hide ComponentsFine, IsLocalPath, Catalogue, DocumentNodes, Canonical, NamesAllowed, Settled, Assemblable, Written,
      Listed;
    var components := Arr(Listed(Catalogue(ItemsOf(doc, COMPONENTS), s.project)));
    ListedSettled(ItemsOf(doc, COMPONENTS), s);
    WrittenSettled(DocumentNodes(doc, s.project), s.file);
    SettledUpdate(doc.fields, COMPONENTS, components, s.file);
    SettledUpdate(doc.fields[COMPONENTS := components], DEPENDENCIES, Arr(Written(DocumentNodes(doc, s.project))),
      s.file);
  }

  lemma RefusedField(fields: map<string, Json>, key: string, file: string -> bool)
    requires key in fields && key != REFERENCES && !Cleanable(fields[key], file)
    ensures !Cleanable(Obj(fields), file)
  {
    assert !CleanableField(key, fields[key], file);
  }

  lemma RefusedItem(items: seq<Json>, x: Json, file: string -> bool)
    requires x in items && !Cleanable(x, file)
    ensures !Cleanable(Arr(items), file)
  {
  }

  lemma RefusedString(x: string, file: string -> bool)
    requires IsLocalPath(x, file)
    ensures !Cleanable(Str(x), file)
  {
  }

  lemma KeptRefused(c: Json, s: Setting)
    requires c.Obj? && !NamesAllowed(s)
    ensures !Cleanable(CanonicalComponent(c, s.project), s.file)
  {
    KeysApart();
    KeysDistinct();
    hide IsLocalPath, Cleanable;
    var p, d := s.project, CanonicalComponent(c, s.project);
    if IsLocalPath(p.Reference(), s.file) {
      RefusedString(p.Reference(), s.file);
      RefusedField(d.fields, BOM_REF, s.file);
    } else {
      RefusedString(p.Purl(), s.file);
      RefusedField(d.fields, PURL, s.file);
    }
  }

  lemma ListedRefused(cs: seq<Json>, s: Setting)
    requires ComponentsFine(cs, s.project) && !NamesAllowed(s)
    ensures !Cleanable(Arr(Listed(Catalogue(cs, s.project))), s.file)
  {
    var p := s.project;
    assert Projects(cs, p) != [] && AllReferenced(cs);
    var first := Projects(cs, p)[0];
    assert first in Projects(cs, p);
    var kept := CanonicalComponent(first, p);
    hide Agree, Distinct, IsName, Listed, Catalogue, CanonicalComponent, MergedComponents, Cleanable, NamesAllowed;
    CatalogueMembers(cs, p, kept);
    ListedMerged(cs, p, kept);
    KeptRefused(first, s);
    RefusedItem(Listed(Catalogue(cs, p)), kept, s.file);
  }

  /** Otherwise it finds the name of the project. */
  lemma AssembledRefused(doc: Json, s: Setting)
    requires DocumentSettled(doc, s) && !NamesAllowed(s)
    ensures !Cleanable(Assembled(doc, s.project), s.file)
  {
    DocumentParts(doc, s);
    KeysDistinct();
    var a := Assembled(doc, s.project);
    hide ComponentsFine, Settled, Acceptable, Cleanable, Written, Listed, Catalogue, Collected, NamesAllowed;
    ListedRefused(ItemsOf(doc, COMPONENTS), s);
    RefusedField(a.fields, COMPONENTS, s.file);
  }

  lemma DocumentIsSettled(payload: Json, s: Setting)
    requires payload.Obj? && payload.Get(METADATA).Obj? && Cleanable(Trimmed(payload), s.file)
    ensures Settled(Document(payload, s), s.file)
  {
    StrippedSettles(Trimmed(payload), s.file);
  }

  /** The part of `canonicalize_sbom` between the two sanitising passes. */
  method Assemble(doc: Json, p: Project) returns (r: Result<Json>)
    requires doc.Obj?
    ensures r.Ok? <==> Assemblable(doc, p)
    ensures r.Ok? ==> r.value == Assembled(doc, p)
  {
    hide HasReference, ReferenceOf, IsName, Projects, Remaining, CanonicalComponent, Collected, Written, Agree,
      AllNodes, Complete, References, Listed;
    if !doc.Get(COMPONENTS).Arr? {
      return Err(STRUCTURE);
    }
    var components :- CanonicalizeComponents(doc.Get(COMPONENTS).items);
    var merge :- CanonicalizeProjectComponent(components, p);
    AgreeingExist(Projects(components, p), p);
    assert merge.components == MergedComponents(components, p);
    var sorted :- SortComponents(merge.components);
    var references := References(merge.components);
    CatalogueKeys(components, p);
    if !doc.Get(DEPENDENCIES).Arr? {
      return Err(STRUCTURE);
    }
    var dependencies :- CanonicalizeDependencies(doc.Get(DEPENDENCIES).items, merge.aliases, references);
    r := Ok(Obj(doc.fields[COMPONENTS := Arr(sorted)][DEPENDENCIES := Arr(dependencies)]));
  }

  lemma CatalogueKeys(cs: seq<Json>, p: Project)
    requires ComponentsFine(cs, p)
    ensures Catalogue(cs, p).Keys == References(MergedComponents(cs, p))
  {
    hide HasReference, ReferenceOf, MergedComponents, Agree;
  }

  /** `canonicalize_sbom` */
  method CanonicalizeSbom(payload: Json, s: Setting) returns (r: Result<Json>)
    ensures r.Ok? <==> Accepts(payload, s)
    ensures r.Ok? ==> r.value == Form(payload, s)
    ensures !payload.Obj? ==> r == Err(STRUCTURE)
  {
    hide IsLocalPath, Cleanable, Stripped, Settled, Assemblable, Assembled, PythonEqual, NamesAllowed, Trimmed;
    if !payload.Obj? {
      return Err(STRUCTURE);
    }
    if payload.Get("bomFormat") != Str("CycloneDX") || payload.Get("specVersion") != Str("1.6")
      || !PythonEqual(payload.Get("version"), Int(1))
    {
      return Err(SCHEMA_UNSUPPORTED);
    }
    if s.project.name == "" || s.project.version == "" {
      return Err(PROJECT_IDENTITY);
    }
    if !payload.Get(METADATA).Obj? {
      return Err(STRUCTURE);
    }
    var doc :- Sanitize(Trimmed(payload), s.file);
    DocumentIsSettled(payload, s);
    var result :- Assemble(doc, s.project);
    if NamesAllowed(s) {
      AssembledSettled(doc, s);
      SettledStays(result, s.file);
    } else {
      AssembledRefused(doc, s);
    }
    r := Sanitize(result, s.file);
  }

  // ----- idempotence -----

  /** The result holds no local path in any string value. */
  lemma FormHasNoLocalPaths(payload: Json, s: Setting)
    requires Accepts(payload, s)
    ensures Settled(Form(payload, s), s.file) && NoLocalPaths(Form(payload, s), s.file)
  {
    hide IsLocalPath, Cleanable, Stripped, Settled, Assemblable, Assembled, NamesAllowed, Trimmed, NoLocalPaths;
    DocumentIsSettled(payload, s);
    AssembledSettled(Document(payload, s), s);
    SettledHasNoLocalPaths(Form(payload, s), s.file);
  }

  lemma AssembledAgain(doc: Json, s: Setting)
    requires DocumentSettled(doc, s) && NamesAllowed(s)
    ensures Assemblable(Assembled(doc, s.project), s.project)
    ensures Assembled(Assembled(doc, s.project), s.project) == Assembled(doc, s.project)
  {
    var p, cs, a := s.project, ItemsOf(doc, COMPONENTS), Assembled(doc, s.project);
    KeysDistinct();
    DocumentParts(doc, s);
    DocumentNodesCanonical(doc, s);
    var l := Listed(Catalogue(cs, p));
    var n := DocumentNodes(doc, p);
    hide ComponentsFine, Acceptable, Written, Listed, Catalogue, DocumentNodes, IsLocalPath, NamesAllowed, Settled,
      Projects, AliasesOf, Collected, AllNodes, Canonical, ItemsOf, Assemblable;
    assert a.Get(COMPONENTS) == Arr(l) && a.Get(DEPENDENCIES) == Arr(Written(n));
    ComponentsReadBack(cs, p);
    FineReferenced(l, p);
    ReadsBack(n, AliasesOf(Projects(l, p), p));
    CanonicalSame(n);
    AgainFrom(a, l, n, p);
  }

  lemma FineReferenced(cs: seq<Json>, p: Project)
    requires ComponentsFine(cs, p)
    ensures AllReferenced(cs)
  {
  }

  lemma AgainFrom(a: Json, l: seq<Json>, n: Nodes, p: Project)
    requires a.Obj? && a.Get(COMPONENTS) == Arr(l) && SameNodes(n) && a.Get(DEPENDENCIES) == Arr(Written(n))
    requires ComponentsFine(l, p) && l == Listed(Catalogue(l, p)) && n.dependsOn.Keys == Catalogue(l, p).Keys
    requires Acceptable(Written(n), AliasesOf(Projects(l, p), p), n.dependsOn.Keys)
      && Collected(Written(n), AliasesOf(Projects(l, p), p)) == n
    requires COMPONENTS in a.fields && DEPENDENCIES in a.fields
    ensures Assemblable(a, p) && Assembled(a, p) == a
  {
    KeysDistinct();
    hide ComponentsFine, Acceptable, Written, Listed, Catalogue, Collected, Projects, AliasesOf, AllReferenced,
      AllNodes;
    assert a.fields[COMPONENTS := Arr(l)][DEPENDENCIES := Arr(Written(n))] == a.fields;
  }

  lemma HeadKeys()
    ensures {"bomFormat", "specVersion", "version"} !! {COMPONENTS, DEPENDENCIES, METADATA, SERIAL_NUMBER, REFERENCES}
  {
    assert |"bomFormat"| == 9 && |"specVersion"| == 11 && |"version"| == 7;
    assert |REFERENCES| == 18 && |COMPONENTS| == 10 && |DEPENDENCIES| == 12 && |METADATA| == 8 && |SERIAL_NUMBER| == 12;
  }

  /** A document as the two trims leave it. */
  ghost predicate IsTrimmed(doc: Json) {
    doc.Obj? && doc.Get(METADATA).Obj? && SERIAL_NUMBER !in doc.fields && TIMESTAMP !in doc.Get(METADATA).fields
  }

  lemma TrimmedStays(doc: Json)
    requires IsTrimmed(doc)
    ensures Trimmed(doc) == doc
  {
    KeysDistinct();
    var metadata := doc.Get(METADATA);
    assert metadata.fields - {TIMESTAMP} == metadata.fields;
    assert METADATA in doc.fields;
    assert Trimmed(doc).fields == doc.fields;
  }

  lemma StrippedKey(fields: map<string, Json>, key: string, file: string -> bool)
    requires key != REFERENCES
    ensures key in fields <==> key in Stripped(Obj(fields), file).fields
    ensures Stripped(Obj(fields), file).Get(key) == Stripped(Obj(fields).Get(key), file)
  {
    assert key in fields ==> Stripped(Obj(fields), file).fields[key] == StrippedField(key, fields[key], file);
  }

  lemma StrippedScalar(v: Json, file: string -> bool)
    ensures v.Obj? || v.Arr? || Stripped(v, file) == v
    ensures v.Obj? ==> Stripped(v, file).Obj? && Stripped(v, file).fields.Keys == v.fields.Keys
  {
  }

  lemma DocumentHead(payload: Json, s: Setting)
    requires Headed(payload, s)
    ensures Headed(Document(payload, s), s) && IsTrimmed(Document(payload, s))
  {
    HeadKeys();
    KeysDistinct();
    var t := Trimmed(payload);
    assert t.Get("bomFormat") == payload.Get("bomFormat") && t.Get("specVersion") == payload.Get("specVersion");
    assert t.Get("version") == payload.Get("version");
    StrippedKey(t.fields, "bomFormat", s.file);
    StrippedKey(t.fields, "specVersion", s.file);
    StrippedKey(t.fields, "version", s.file);
    StrippedKey(t.fields, METADATA, s.file);
    StrippedKey(t.fields, SERIAL_NUMBER, s.file);
    StrippedScalar(t.Get("bomFormat"), s.file);
    StrippedScalar(t.Get("specVersion"), s.file);
    StrippedScalar(t.Get("version"), s.file);
    StrippedScalar(t.Get(METADATA), s.file);
    assert TIMESTAMP !in t.Get(METADATA).fields;
    assert !t.Get("version").Obj? && !t.Get("version").Arr?;
    hide Stripped;
  }

  lemma AssembledHead(doc: Json, s: Setting)
    requires Headed(doc, s) && IsTrimmed(doc) && Assemblable(doc, s.project)
    ensures Headed(Assembled(doc, s.project), s) && IsTrimmed(Assembled(doc, s.project))
  {
    HeadKeys();
    KeysDistinct();
    hide Assemblable, Listed, Written, Catalogue, DocumentNodes;
    var a := Assembled(doc, s.project);
    assert a.Get("bomFormat") == doc.Get("bomFormat") && a.Get("specVersion") == doc.Get("specVersion");
    assert a.Get("version") == doc.Get("version") && a.Get(METADATA) == doc.Get(METADATA);
  }

  /** Canonicalising twice is canonicalising once: the result is accepted, and left as it is. */
  lemma CanonicalFormIsFixed(payload: Json, s: Setting)
    requires Accepts(payload, s)
    ensures Accepts(Form(payload, s), s) && Form(Form(payload, s), s) == Form(payload, s)
  {
    assert payload.Obj? && payload.Get(METADATA).Obj?;
    hide IsLocalPath, Cleanable, Stripped, Settled, Assemblable, Assembled, NamesAllowed, Trimmed, NoLocalPaths, Headed;
    var form := Form(payload, s);
    FormHasNoLocalPaths(payload, s);
    DocumentIsSettled(payload, s);
    DocumentHead(payload, s);
    AssembledHead(Document(payload, s), s);
    TrimmedStays(form);
    SettledStays(form, s.file);
    AssembledAgain(Document(payload, s), s);
  }

  // ----- the graph of the result -----

  lemma WrittenEdgeAt(n: Nodes, f: Field, i: nat, u: string, v: string)
    requires Canonical(n) && AllNodes(Written(n)) && i < |Written(n)| && i < |SortedStrings(n.dependsOn.Keys)|
    ensures RefOf(Written(n)[i]) == u && v in Edges(Written(n)[i], f) <==>
      SortedStrings(n.dependsOn.Keys)[i] == u && Arrow(Of(n, f), u, v)
  {
    hide SameNodes, Written, IsNode, RefOf, Edges, Canonical, Ascending;
    WrittenAt(n, i);
  }

  lemma WrittenEdge(n: Nodes, f: Field, u: string, v: string)
    requires Canonical(n) && AllNodes(Written(n))
    ensures GivenEdge(Written(n), f, u, v) <==> Arrow(Of(n, f), u, v)
  {
    hide Written, IsNode, RefOf, Edges, Canonical, Ascending;
    CanonicalSame(n);
    WrittenLength(n);
    var w, order := Written(n), SortedStrings(n.dependsOn.Keys);
    if GivenEdge(w, f, u, v) {
      var i :| 0 <= i < |w| && RefOf(w[i]) == u && v in Edges(w[i], f);
      WrittenEdgeAt(n, f, i, u, v);
    }
    if Arrow(Of(n, f), u, v) {
      assert u in Of(n, f).Keys;
      assert u in order;
      var i :| 0 <= i < |order| && order[i] == u;
      WrittenEdgeAt(n, f, i, u, v);
      assert RefOf(w[i]) == u;
    }
  }

  lemma WrittenQuotient(n: Nodes, deps: seq<Json>, f: Field, aliases: Aliases, u: string, v: string)
    requires Canonical(n) && AllNodes(deps) && Of(n, f) == Merged(deps, f, aliases)
    ensures AllNodes(Written(n))
    ensures GivenEdge(Written(n), f, u, v) <==> u != v && HasPreimage(deps, f, aliases, u, v)
    ensures GivenEdge(Written(n), f, u, v) ==> u in n.dependsOn && v in n.dependsOn
  {
    CanonicalSame(n);
    hide Written, IsNode, Merged, HasPreimage, GivenEdge, Canonical, SameNodes;
    WrittenIsWellFormed(n);
    WrittenEdge(n, f, u, v);
    EdgesAreAliasImages(deps, f, aliases, u, v);
    CanonicalParts(n);
    if Arrow(Of(n, f), u, v) {
      assert u in Of(n, f).Keys;
      assert v in Targets(Of(n, f), u);
    }
  }

  /** The dependencies of the result are exactly the images of the given edges under the aliases, without self-edges,
    * and both ends are components of the result.
    */
  lemma ResultIsQuotient(payload: Json, s: Setting, f: Field, u: string, v: string)
    requires Accepts(payload, s)
    ensures
      var doc, out := Document(payload, s), ItemsOf(Form(payload, s), DEPENDENCIES);
      && AllNodes(out)
      && (GivenEdge(out, f, u, v) <==>
        && u != v
        && HasPreimage(ItemsOf(doc, DEPENDENCIES), f, DocumentAliases(doc, s.project), u, v))
      && (GivenEdge(out, f, u, v) ==>
            u in Catalogue(ItemsOf(doc, COMPONENTS), s.project) && v in Catalogue(ItemsOf(doc, COMPONENTS), s.project))
  {
    hide IsLocalPath, Cleanable, Settled, Document, NamesAllowed, Trimmed, Written, DocumentNodes, Catalogue, IsNode,
      Merged, ItemsOf, DocumentAliases, HasPreimage, GivenEdge, Form, PythonEqual, AllNodes, Canonical, Agree, Distinct,
      MergedComponents, Acceptable;
    var doc := Document(payload, s);
    DocumentIsSettled(payload, s);
    DocumentMerged(doc, s.project, f);
    var deps, aliases, n := ItemsOf(doc, DEPENDENCIES), DocumentAliases(doc, s.project), DocumentNodes(doc, s.project);
    DocumentNodesCanonical(doc, s);
    FormDependencies(payload, s);
    WrittenQuotient(n, deps, f, aliases, u, v);
  }

  lemma DocumentMerged(doc: Json, p: Project, f: Field)
    requires Assemblable(doc, p)
    ensures AllNodes(ItemsOf(doc, DEPENDENCIES))
    ensures Of(DocumentNodes(doc, p), f) == Merged(ItemsOf(doc, DEPENDENCIES), f, DocumentAliases(doc, p))
  {
    hide IsNode, Merged, ItemsOf, DocumentAliases, ComponentsFine, Catalogue;
  }

  lemma FormDependencies(payload: Json, s: Setting)
    requires Accepts(payload, s)
    ensures ItemsOf(Form(payload, s), DEPENDENCIES) == Written(DocumentNodes(Document(payload, s), s.project))
  {
    hide Headed, Cleanable, Document, NamesAllowed, Written, Listed, DocumentNodes, ComponentsFine, Acceptable,
      Catalogue;
  }

  /** Every dependency path of the document is, under the aliases, a dependency path of the result, possibly empty. */
  lemma PathsReachTheResult(payload: Json, s: Setting, f: Field, p: seq<string>) returns (q: seq<string>)
    requires Accepts(payload, s)
    requires AllNodes(ItemsOf(Document(payload, s), DEPENDENCIES))
      && GivenPath(ItemsOf(Document(payload, s), DEPENDENCIES), f, p)
    ensures AllNodes(ItemsOf(Form(payload, s), DEPENDENCIES))
      && GivenPath(ItemsOf(Form(payload, s), DEPENDENCIES), f, q)
    ensures
      var aliases := DocumentAliases(Document(payload, s), s.project);
      q[0] == Alias(aliases, p[0]) && q[|q| - 1] == Alias(aliases, p[|p| - 1])
  {
    var doc := Document(payload, s);
    var deps, aliases := ItemsOf(doc, DEPENDENCIES), DocumentAliases(doc, s.project);
    var n := DocumentNodes(doc, s.project);
    var g := Merged(deps, f, aliases);
    assert Of(n, f) == g;
    DocumentIsSettled(payload, s);
    DocumentNodesCanonical(doc, s);
    FormDependencies(payload, s);
    WrittenIsWellFormed(n);
    hide IsLocalPath, Cleanable, Settled, Assemblable, Document, NamesAllowed, Trimmed, Written, DocumentNodes,
      Catalogue, IsNode, Merged, ItemsOf, DocumentAliases, HasPreimage, GivenEdge, Form, Headed;
    PathsSurvive(deps, f, aliases, p);
    q :| WalkBetween(g, q, Alias(aliases, p[0]), Alias(aliases, p[|p| - 1]));
    forall i | 0 <= i < |q| - 1 ensures GivenEdge(Written(n), f, q[i], q[i + 1]) {
      assert StepAt(g, q, i);
      WrittenEdge(n, f, q[i], q[i + 1]);
    }
  }
}
