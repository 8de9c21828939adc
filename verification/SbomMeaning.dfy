/** Which documents `canonicalize_sbom` (scripts/generate_sbom.py:102-307) accepts, said of their fields, and what
  * stands in the result.
  */
module SbomMeaning {
  import opened CycloneDx
  import opened Digraph
  import opened Json
  import opened SbomCanonical
  import opened SbomComponentLaws
  import opened SbomComponents
  import opened SbomGraph
  import opened SbomMerging
  import opened SbomReordering
  import opened SbomSanitizing
  import opened SbomSanitizingMeaning
  import opened Sorting
  import opened Wrappers

  // ----- equality and order in Python -----

  function NumberOf(v: Json): Option<real> {
    match v
    case Bool(b) => Some(if b then 1.0 else 0.0)
    case Int(i) => Some(i as real)
    case Float(r) => Some(r)
    case _ => None
  }

  /** Numbers are equal by their value, truth values being 1 and 0, and all else by its parts. */
  ghost predicate Equal(v: Json, w: Json)
    decreases v
  {
    match v
    case Null => w.Null?
    case Str(s) => w == Str(s)
    case Arr(items) => w.Arr? && |w.items| == |items| && forall i :: 0 <= i < |items| ==> Equal(items[i], w.items[i])
    case Obj(fields) => w.Obj? && w.fields.Keys == fields.Keys
      && forall k :: k in fields ==> Equal(fields[k], w.fields[k])
    case _ => NumberOf(w) == NumberOf(v)
  }

  lemma {:induction false} NormItemsAt(items: seq<Json>)
    ensures forall i :: 0 <= i < |items| ==> NormItems(items)[i] == Norm(items[i])
  {
    hide Norm;
    if items != [] {
      NormItemsAt(items[1..]);
      forall i | 0 < i < |items| ensures NormItems(items)[i] == Norm(items[i]) {
        assert items[1..][i - 1] == items[i];
      }
    }
  }

  lemma {:induction false} EqualIff(v: Json, w: Json)
    ensures Equal(v, w) <==> PythonEqual(v, w)
    decreases v
  {
    match v
    case Arr(items) =>
      if w.Arr? && |w.items| == |items| {
        NormItemsAt(items);
        NormItemsAt(w.items);
        forall i | 0 <= i < |items| ensures Equal(items[i], w.items[i]) <==> Norm(items[i]) == Norm(w.items[i]) {
          EqualIff(items[i], w.items[i]);
        }
        if Equal(v, w) {
          assert NormItems(items) == NormItems(w.items);
        }
      }
    case Obj(fields) =>
      if w.Obj? && w.fields.Keys == fields.Keys {
        forall k | k in fields ensures Equal(fields[k], w.fields[k]) <==> Norm(fields[k]) == Norm(w.fields[k]) {
          EqualIff(fields[k], w.fields[k]);
        }
        if Equal(v, w) {
          assert Norm(v).fields == Norm(w).fields;
        }
        if PythonEqual(v, w) {
          assert forall k :: k in fields ==> Norm(v).fields[k] == Norm(w).fields[k];
        }
      } else if w.Obj? {
        assert Norm(v).fields.Keys == fields.Keys && Norm(w).fields.Keys == w.fields.Keys;
      }
    case _ =>
  }

  /** x comes before y: they part at some place, where x ends or has the smaller character. */
  ghost predicate Before(x: string, y: string) {
    exists n :: 0 <= n <= |x| && n < |y| && x[..n] == y[..n] && (n == |x| || x[n] < y[n])
  }

  lemma {:induction false} BeforeIff(x: string, y: string)
    ensures Before(x, y) <==> StringLe(x, y) && x != y
    decreases |x|
  {
    if x != [] && y != [] && x[0] == y[0] {
      BeforeIff(x[1..], y[1..]);
      assert x == [x[0]] + x[1..] && y == [y[0]] + y[1..];
      if n :| 0 <= n <= |x| && n < |y| && x[..n] == y[..n] && (n == |x| || x[n] < y[n]) {
        assert n > 0;
        assert x[1..][..n - 1] == x[..n][1..] && y[1..][..n - 1] == y[..n][1..];
      }
      var v, w := x[1..], y[1..];
      if n :| 0 <= n <= |v| && n < |w| && v[..n] == w[..n] && (n == |v| || v[n] < w[n]) {
        assert x[..n + 1] == [x[0]] + v[..n] && y[..n + 1] == [y[0]] + w[..n];
        assert x[..n + 1] == y[..n + 1];
      }
    } else if y != [] {
      assert x[..0] == y[..0];
    }
  }

  // ----- the components -----

  ghost predicate HasName(c: Json, x: string) {
    c.Obj? && x != "" && c.Get("bom-ref") == Str(x)
  }

  /** The name of the component is that of the project, as package names are compared. */
  ghost predicate OfProject(c: Json, p: Project) {
    c.Obj? && exists name :: c.Get("name") == Str(name) && p.normalize(name) == p.normalize(p.name)
  }

  function ProjectName(p: Project): string {
    p.normalize(p.name) + "==" + p.version
  }

  function ProjectUrl(p: Project): string {
    "pkg:pypi/" + p.normalize(p.name) + "@" + p.version
  }

  ghost predicate ProjectFine(c: Json, p: Project)
    requires c.Obj?
  {
    && c.Get("version") == Str(p.version) && c.Get("type") == Str("library")
    && c.Get("purl") in {Null, Str(ProjectUrl(p))}
  }

  /** They agree in all but their reference and package URL. */
  ghost predicate SameBody(c: Json, d: Json)
    requires c.Obj? && d.Obj?
  {
    forall k {:trigger k in c.fields} :: k != "bom-ref" && k != "purl" ==>
      (k in c.fields <==> k in d.fields) && (k in c.fields ==> Equal(c.fields[k], d.fields[k]))
  }

  ghost predicate ComponentsGood(cs: seq<Json>, p: Project) {
    && (forall c :: c in cs ==> exists x :: HasName(c, x))
    && (forall i, j, x :: 0 <= i < j < |cs| ==> !(HasName(cs[i], x) && HasName(cs[j], x)))
    && (exists c :: c in cs && OfProject(c, p))
    && (forall c :: c in cs && OfProject(c, p) ==> ProjectFine(c, p))
    && (forall c, d :: c in cs && d in cs && OfProject(c, p) && OfProject(d, p) ==> SameBody(c, d))
    && (forall c :: c in cs && !OfProject(c, p) ==> !HasName(c, ProjectName(p)))
  }

  lemma HasNameIff(c: Json, x: string)
    ensures HasName(c, x) <==> HasReference(c) && ReferenceOf(c) == x
  {
  }

  lemma OfProjectIff(c: Json, p: Project)
    requires c.Obj?
    ensures OfProject(c, p) <==> IsProject(c, p)
  {
  }

  lemma ProjectFineIff(c: Json, p: Project)
    requires c.Obj?
    ensures ProjectFine(c, p) <==> Identified(c, p)
  {
    assert ProjectUrl(p) == p.Purl();
  }

  lemma SameBodyIff(c: Json, d: Json)
    requires c.Obj? && d.Obj?
    ensures SameBody(c, d) <==> PythonEqual(Body(c), Body(d))
  {
    EqualIff(Body(c), Body(d));
    hide PythonEqual;
    assert Body(c).fields.Keys == c.fields.Keys - {"bom-ref", "purl"};
    assert Body(d).fields.Keys == d.fields.Keys - {"bom-ref", "purl"};
    if Equal(Body(c), Body(d)) {
      forall k | k != "bom-ref" && k != "purl"
        ensures k in c.fields <==> k in d.fields
        ensures k in c.fields ==> Equal(c.fields[k], d.fields[k])
      {
        assert k in Body(c).fields <==> k in Body(d).fields;
      }
    }
    if SameBody(c, d) {
      var f, g := Body(c).fields, Body(d).fields;
      forall k ensures k in f <==> k in g {
        if k != "bom-ref" && k != "purl" {
          assert k in c.fields <==> k in d.fields;
        }
      }
      assert f.Keys == g.Keys;
      forall k | k in f ensures Equal(f[k], g[k]) {
        assert k in c.fields;
      }
    }
  }

  lemma NamesIff(cs: seq<Json>)
    ensures WellReferenced(cs) <==>
      && (forall c :: c in cs ==> exists x :: HasName(c, x))
      && (forall i, j, x :: 0 <= i < j < |cs| ==> !(HasName(cs[i], x) && HasName(cs[j], x)))
  {
    hide HasName, HasReference;
    forall c: Json, x ensures HasName(c, x) <==> HasReference(c) && ReferenceOf(c) == x {
      HasNameIff(c, x);
    }
    hide ReferenceOf;
    assert forall i :: 0 <= i < |cs| ==> cs[i] in cs;
    if AllReferenced(cs) {
      forall c | c in cs ensures HasName(c, ReferenceOf(c)) {
      }
    }
  }

  lemma ProjectNameIs(p: Project)
    ensures ProjectName(p) == p.Reference() && ProjectUrl(p) == p.Purl()
  {
  }

  lemma ProjectsAre(cs: seq<Json>, p: Project)
    requires AllReferenced(cs)
    ensures forall c :: c in Projects(cs, p) <==> c in cs && OfProject(c, p)
  {
    hide OfProject, IsProject, HasReference;
    forall c | c in cs ensures c.Obj? && (OfProject(c, p) <==> c in Projects(cs, p)) {
      ReferencedIsObject(cs, c);
      OfProjectIff(c, p);
    }
  }

  lemma BodiesIff(projects: seq<Json>)
    requires projects != [] && forall c :: c in projects ==> c.Obj?
    ensures (forall i :: 0 <= i < |projects| ==> PythonEqual(Body(projects[i]), Body(projects[0])))
      <==> forall c, d :: c in projects && d in projects ==> SameBody(c, d)
  {
    hide SameBody, Body, Norm;
    assert forall i :: 0 <= i < |projects| ==> projects[i] in projects;
    forall c, d | c in projects && d in projects ensures SameBody(c, d) <==> PythonEqual(Body(c), Body(d)) {
      SameBodyIff(c, d);
    }
    if forall i :: 0 <= i < |projects| ==> PythonEqual(Body(projects[i]), Body(projects[0])) {
      forall c, d | c in projects && d in projects ensures SameBody(c, d) {
        var i :| 0 <= i < |projects| && projects[i] == c;
        var j :| 0 <= j < |projects| && projects[j] == d;
      }
    }
  }

  lemma AgreeIff(cs: seq<Json>, p: Project)
    requires AllReferenced(cs)
    ensures Agree(Projects(cs, p), p) <==>
      && (exists c :: c in cs && OfProject(c, p))
      && (forall c :: c in cs && OfProject(c, p) ==> ProjectFine(c, p))
      && (forall c, d :: c in cs && d in cs && OfProject(c, p) && OfProject(d, p) ==> SameBody(c, d))
  {
    hide ProjectFine, SameBody, IsProject, Identified, Body, HasReference, Norm, Projects;
    var projects := Projects(cs, p);
    ProjectsAre(cs, p);
    forall c | c in projects ensures c.Obj? && (ProjectFine(c, p) <==> Identified(c, p)) {
      ReferencedIsObject(cs, c);
      ProjectFineIff(c, p);
    }
    hide OfProject;
    assert forall i :: 0 <= i < |projects| ==> projects[i] in projects;
    if projects != [] {
      BodiesIff(projects);
      assert projects[0] in cs && OfProject(projects[0], p);
    }
    if Agree(projects, p) {
      forall c | c in cs && OfProject(c, p) ensures ProjectFine(c, p) {
        var i :| 0 <= i < |projects| && projects[i] == c;
      }
    }
  }

  lemma ReferencedIsObject(cs: seq<Json>, c: Json)
    requires AllReferenced(cs) && c in cs
    ensures c.Obj? && HasReference(c)
  {
    var i :| 0 <= i < |cs| && cs[i] == c;
  }

  lemma FreeIff(cs: seq<Json>, p: Project)
    requires AllReferenced(cs)
    ensures ReferenceFree(cs, p) <==> forall c :: c in cs && !OfProject(c, p) ==> !HasName(c, ProjectName(p))
  {
    hide OfProject, HasName, IsProject, ReferenceOf;
    ProjectNameIs(p);
    forall c | c in cs
      ensures HasReference(c) && (OfProject(c, p) <==> IsProject(c, p))
      ensures HasName(c, ProjectName(p)) <==> ReferenceOf(c) == p.Reference()
    {
      ReferencedIsObject(cs, c);
      OfProjectIff(c, p);
      HasNameIff(c, ProjectName(p));
    }
  }

  /** What is accepted of the components. */
  lemma ComponentsIff(cs: seq<Json>, p: Project)
    ensures ComponentsFine(cs, p) <==> ComponentsGood(cs, p)
  {
    hide HasName, OfProject, ProjectFine, SameBody, Agree, ReferenceFree, HasReference, ReferenceOf, MergedComponents;
    NamesIff(cs);
    if WellReferenced(cs) {
      AgreeIff(cs, p);
      FreeIff(cs, p);
      if Agree(Projects(cs, p), p) {
        AgreeingExist(Projects(cs, p), p);
        DistinctIffReferenceFree(cs, p);
      }
    }
  }

  // ----- the graph -----

  /** What a reference becomes: the name of the project for the references of its components, and else itself. */
  ghost function NewName(cs: seq<Json>, p: Project, x: string): string {
    if exists c :: c in cs && OfProject(c, p) && HasName(c, x) then ProjectName(p) else x
  }

  /** A component of the result. */
  ghost predicate IsListed(cs: seq<Json>, p: Project, u: string) {
    u == ProjectName(p) || exists c :: c in cs && !OfProject(c, p) && HasName(c, u)
  }

  ghost predicate ListGood(d: Json, key: string)
    requires d.Obj?
  {
    key in d.fields ==> d.fields[key].Arr? && forall e :: e in d.fields[key].items ==> e.Str? && e != Str("")
  }

  ghost predicate NodeGood(d: Json) {
    && d.Obj? && (forall k :: k in d.fields ==> k == "ref" || k == "dependsOn" || k == "provides")
    && d.Get("ref").Str? && d.Get("ref") != Str("") && ListGood(d, "dependsOn") && ListGood(d, "provides")
  }

  /** The node of x names y under the key. */
  ghost predicate HasEdge(d: Json, key: string, x: string, y: string) {
    d.Obj? && d.Get("ref") == Str(x) && d.Get(key).Arr? && Str(y) in d.Get(key).items
  }

  ghost predicate GraphGood(deps: seq<Json>, cs: seq<Json>, p: Project) {
    && (forall d :: d in deps ==> NodeGood(d))
    && (forall u :: IsListed(cs, p, u) <==>
          exists d, x :: d in deps && d.Obj? && d.Get("ref") == Str(x) && NewName(cs, p, x) == u)
    && (forall d, x, y :: d in deps && (HasEdge(d, "dependsOn", x, y) || HasEdge(d, "provides", x, y)) ==>
          IsListed(cs, p, NewName(cs, p, y)))
  }

  lemma NodeGoodIff(d: Json)
    ensures NodeGood(d) <==> IsNode(d)
  {
    if d.Obj? {
      assert d.fields.Keys <= {REF, DEPENDS_ON, PROVIDES} <==>
        forall k :: k in d.fields ==> k == "ref" || k == "dependsOn" || k == "provides";
    }
  }

  lemma HasEdgeIff(d: Json, f: Field, x: string, y: string)
    requires IsNode(d)
    ensures HasEdge(d, Key(f), x, y) <==> RefOf(d) == x && y in Edges(d, f)
    ensures d.Get("ref") == Str(x) <==> RefOf(d) == x
  {
    var items := EdgeList(d, Key(f)).items;
    if y in Edges(d, f) {
      var e :| e in items && e.s == y;
      assert e == Str(y);
    }
  }

  lemma AliasIs(cs: seq<Json>, p: Project, x: string)
    requires AllReferenced(cs)
    ensures Alias(AliasesOf(Projects(cs, p), p), x) == NewName(cs, p, x)
  {
    hide OfProject, HasName, IsProject, HasReference, ReferenceOf;
    ProjectNameIs(p);
    var projects := Projects(cs, p);
    forall c | c in cs
      ensures c.Obj? && HasReference(c) && (OfProject(c, p) <==> c in projects)
      ensures HasName(c, x) <==> ReferenceOf(c) == x
    {
      ReferencedIsObject(cs, c);
      OfProjectIff(c, p);
      HasNameIff(c, x);
    }
    if c :| c in cs && OfProject(c, p) && HasName(c, x) {
      var i :| 0 <= i < |projects| && projects[i] == c;
    }
    if x in References(projects) {
      var i :| 0 <= i < |projects| && ReferenceOf(projects[i]) == x;
      assert projects[i] in projects;
    }
  }

  /** The components of the result. */
  lemma MergedAre(cs: seq<Json>, p: Project, c: Json)
    requires ComponentsFine(cs, p)
    ensures Projects(cs, p) != [] && Projects(cs, p)[0] in cs && Projects(cs, p)[0].Obj?
    ensures OfProject(Projects(cs, p)[0], p)
    ensures c in MergedComponents(cs, p) <==>
      (c in cs && !OfProject(c, p)) || c == CanonicalComponent(Projects(cs, p)[0], p)
  {
    hide OfProject, HasName, HasReference, ReferenceOf, CanonicalComponent, Distinct;
    AgreeingExist(Projects(cs, p), p);
    var first := Projects(cs, p)[0];
    assert first in Projects(cs, p);
    ProjectsAre(cs, p);
    ReferencedIsObject(cs, first);
    CatalogueMembers(cs, p, c);
    if c in cs {
      ReferencedIsObject(cs, c);
      OfProjectIff(c, p);
    }
  }

  lemma ListedIff(cs: seq<Json>, p: Project, u: string)
    requires ComponentsFine(cs, p)
    ensures u in Catalogue(cs, p) <==> IsListed(cs, p, u)
  {
    hide OfProject, HasName, HasReference, ReferenceOf, CanonicalComponent, MergedComponents, Distinct, Catalogue,
      Projects;
    ProjectNameIs(p);
    CatalogueKeys(cs, p);
    MergedAre(cs, p, Null);
    var merged, kept := MergedComponents(cs, p), CanonicalComponent(Projects(cs, p)[0], p);
    MergedAre(cs, p, kept);
    CanonicalReferenced(Projects(cs, p)[0], p);
    forall c ensures c in merged <==> (c in cs && !OfProject(c, p)) || c == kept {
      MergedAre(cs, p, c);
    }
    forall c: Json ensures HasName(c, u) <==> HasReference(c) && ReferenceOf(c) == u {
      HasNameIff(c, u);
    }
    MemberReferences(merged, u);
  }

  lemma MemberReferences(cs: seq<Json>, u: string)
    requires AllReferenced(cs)
    ensures u in References(cs) <==> exists c :: c in cs && HasReference(c) && ReferenceOf(c) == u
  {
    hide HasReference, ReferenceOf;
    if u in References(cs) {
      var i :| 0 <= i < |cs| && ReferenceOf(cs[i]) == u;
      assert cs[i] in cs;
    }
    if c :| c in cs && HasReference(c) && ReferenceOf(c) == u {
      var i :| 0 <= i < |cs| && cs[i] == c;
    }
  }

  // ----- which graphs are accepted -----

  ghost predicate HasNode(deps: seq<Json>, cs: seq<Json>, p: Project, u: string) {
    exists d, x :: d in deps && d.Obj? && d.Get("ref") == Str(x) && NewName(cs, p, x) == u
  }

  ghost predicate HasImage(deps: seq<Json>, cs: seq<Json>, p: Project, key: string, u: string, w: string) {
    exists d, x, y :: d in deps && HasEdge(d, key, x, y) && NewName(cs, p, x) == u && NewName(cs, p, y) == w
  }

  lemma HasNodeIff(deps: seq<Json>, cs: seq<Json>, p: Project, u: string)
    requires AllNodes(deps) && AllReferenced(cs)
    ensures HasNode(deps, cs, p, u) <==> u in Merged(deps, DependsOn, AliasesOf(Projects(cs, p), p))
    ensures HasNode(deps, cs, p, u) <==> u in Merged(deps, Provides, AliasesOf(Projects(cs, p), p))
  {
    hide IsNode, RefOf, NewName, HasReference, Projects, Merged, AliasesOf;
    var aliases := AliasesOf(Projects(cs, p), p);
    MergedNode(deps, DependsOn, aliases, u);
    MergedNode(deps, Provides, aliases, u);
    forall i | 0 <= i < |deps| ensures deps[i].Obj? && deps[i].Get("ref") == Str(RefOf(deps[i])) {
      NodeIsObject(deps[i]);
    }
    forall x ensures NewName(cs, p, x) == Alias(aliases, x) {
      AliasIs(cs, p, x);
    }
    if HasNode(deps, cs, p, u) {
      var d, x :| d in deps && d.Obj? && d.Get("ref") == Str(x) && NewName(cs, p, x) == u;
      var i :| 0 <= i < |deps| && deps[i] == d;
      assert Alias(aliases, RefOf(deps[i])) == u;
    }
    if i :| 0 <= i < |deps| && Alias(aliases, RefOf(deps[i])) == u {
      assert deps[i] in deps;
    }
  }

  lemma NodeIsObject(d: Json)
    requires IsNode(d)
    ensures d.Obj? && d.Get("ref") == Str(RefOf(d))
  {
  }

  lemma HasImageIff(deps: seq<Json>, cs: seq<Json>, p: Project, f: Field, u: string, w: string)
    requires AllNodes(deps) && AllReferenced(cs)
    ensures HasImage(deps, cs, p, Key(f), u, w) <==> HasPreimage(deps, f, AliasesOf(Projects(cs, p), p), u, w)
  {
    hide IsNode, RefOf, Edges, NewName, HasReference, Projects, AliasesOf, HasEdge, Alias;
    var aliases := AliasesOf(Projects(cs, p), p);
    forall x ensures NewName(cs, p, x) == Alias(aliases, x) {
      AliasIs(cs, p, x);
    }
    forall i, x, y | 0 <= i < |deps|
      ensures HasEdge(deps[i], Key(f), x, y) <==> RefOf(deps[i]) == x && y in Edges(deps[i], f)
    {
      HasEdgeIff(deps[i], f, x, y);
    }
    forall x, y ensures GivenEdge(deps, f, x, y) <==> exists d :: d in deps && HasEdge(d, Key(f), x, y) {
      if d :| d in deps && HasEdge(d, Key(f), x, y) {
        var i :| 0 <= i < |deps| && deps[i] == d;
        assert HasEdge(deps[i], Key(f), x, y);
      }
      if GivenEdge(deps, f, x, y) {
        var i :| 0 <= i < |deps| && RefOf(deps[i]) == x && y in Edges(deps[i], f);
        assert deps[i] in deps && HasEdge(deps[i], Key(f), x, y);
      }
    }
    if HasImage(deps, cs, p, Key(f), u, w) {
      var d, x, y :| d in deps && HasEdge(d, Key(f), x, y) && NewName(cs, p, x) == u && NewName(cs, p, y) == w;
      assert GivenEdge(deps, f, x, y);
    }
    if HasPreimage(deps, f, aliases, u, w) {
      var x, y :| GivenEdge(deps, f, x, y) && Alias(aliases, x) == u && Alias(aliases, y) == w;
      assert exists d :: d in deps && HasEdge(d, Key(f), x, y);
    }
  }

  /** Every image of an edge ends at a node, whether or not the graph keeps it. */
  lemma CompleteIff(deps: seq<Json>, cs: seq<Json>, p: Project, f: Field)
    requires AllNodes(deps) && AllReferenced(cs)
    ensures Complete(Merged(deps, f, AliasesOf(Projects(cs, p), p))) <==>
      forall u, w :: HasImage(deps, cs, p, Key(f), u, w) ==> HasNode(deps, cs, p, w)
  {
    hide IsNode, HasReference, Projects, Merged, AliasesOf, HasImage, HasNode, HasPreimage;
    var aliases := AliasesOf(Projects(cs, p), p);
    var g := Merged(deps, f, aliases);
    forall u ensures HasNode(deps, cs, p, u) <==> u in g {
      HasNodeIff(deps, cs, p, u);
    }
    forall u, w
      ensures Arrow(g, u, w) <==> u != w && HasImage(deps, cs, p, Key(f), u, w)
      ensures HasImage(deps, cs, p, Key(f), u, w) ==> HasNode(deps, cs, p, u)
    {
      EdgesAreAliasImages(deps, f, aliases, u, w);
      HasImageIff(deps, cs, p, f, u, w);
      ImageHasNode(deps, cs, p, Key(f), u, w);
    }
    if Complete(g) {
      forall u, w | HasImage(deps, cs, p, Key(f), u, w) ensures HasNode(deps, cs, p, w) {
        if u != w {
          assert Arrow(g, u, w);
        }
      }
    } else {
      var u :| u in g && !(g[u] <= g.Keys);
      var w :| w in g[u] && w !in g;
      assert Arrow(g, u, w);
    }
  }

  lemma ImageHasNode(deps: seq<Json>, cs: seq<Json>, p: Project, key: string, u: string, w: string)
    ensures HasImage(deps, cs, p, key, u, w) ==> HasNode(deps, cs, p, u)
  {
    hide NewName;
    if HasImage(deps, cs, p, key, u, w) {
      var d, x, y :| d in deps && HasEdge(d, key, x, y) && NewName(cs, p, x) == u && NewName(cs, p, y) == w;
    }
  }

  lemma AllNodesIff(deps: seq<Json>)
    ensures AllNodes(deps) <==> forall d :: d in deps ==> NodeGood(d)
  {
    hide NodeGood, IsNode;
    forall i | 0 <= i < |deps| ensures deps[i] in deps && (NodeGood(deps[i]) <==> IsNode(deps[i])) {
      NodeGoodIff(deps[i]);
    }
  }

  ghost predicate EdgesEnd(deps: seq<Json>, cs: seq<Json>, p: Project, key: string) {
    forall d, x, y :: d in deps && HasEdge(d, key, x, y) ==> IsListed(cs, p, NewName(cs, p, y))
  }

  ghost predicate NodesListed(deps: seq<Json>, cs: seq<Json>, p: Project) {
    forall u :: IsListed(cs, p, u) <==> HasNode(deps, cs, p, u)
  }

  lemma GraphGoodParts(deps: seq<Json>, cs: seq<Json>, p: Project)
    ensures GraphGood(deps, cs, p) <==>
      && (forall d :: d in deps ==> NodeGood(d)) && NodesListed(deps, cs, p)
      && EdgesEnd(deps, cs, p, Key(DependsOn)) && EdgesEnd(deps, cs, p, Key(Provides))
  {
    hide NodeGood, IsListed, NewName, HasEdge;
    assert NodesListed(deps, cs, p) <==> forall u :: IsListed(cs, p, u) <==>
      exists d, x :: d in deps && d.Obj? && d.Get("ref") == Str(x) && NewName(cs, p, x) == u;
  }

  /** What is accepted of the graph. */
  lemma GraphIff(deps: seq<Json>, cs: seq<Json>, p: Project)
    requires ComponentsFine(cs, p)
    ensures Acceptable(deps, AliasesOf(Projects(cs, p), p), Catalogue(cs, p).Keys) <==> GraphGood(deps, cs, p)
  {
    hide NodeGood, IsNode, HasReference, Projects, Merged, AliasesOf, HasEdge, NewName, IsListed, Catalogue, Agree,
      Distinct, Complete, MergedComponents, GraphGood, EdgesEnd, HasNode;
    AllNodesIff(deps);
    GraphGoodParts(deps, cs, p);
    if AllNodes(deps) {
      var aliases := AliasesOf(Projects(cs, p), p);
      var n := Collected(deps, aliases);
      forall u
        ensures u in n.dependsOn.Keys <==> HasNode(deps, cs, p, u)
        ensures u in Catalogue(cs, p).Keys <==> IsListed(cs, p, u)
      {
        HasNodeIff(deps, cs, p, u);
        ListedIff(cs, p, u);
      }
      CompleteIff(deps, cs, p, DependsOn);
      CompleteIff(deps, cs, p, Provides);
      SameKeys(n.dependsOn.Keys, Catalogue(cs, p).Keys);
      if NodesListed(deps, cs, p) {
        EdgesEndIff(deps, cs, p, Key(DependsOn));
        EdgesEndIff(deps, cs, p, Key(Provides));
      }
    }
  }

  lemma SameKeys(a: set<string>, b: set<string>)
    ensures a == b <==> forall u :: u in a <==> u in b
  {
  }

  lemma EdgesEndIff(deps: seq<Json>, cs: seq<Json>, p: Project, key: string)
    requires NodesListed(deps, cs, p)
    ensures (forall u, w :: HasImage(deps, cs, p, key, u, w) ==> HasNode(deps, cs, p, w)) <==>
      EdgesEnd(deps, cs, p, key)
  {
    hide NewName, IsListed, HasEdge, HasNode;
    if forall u, w :: HasImage(deps, cs, p, key, u, w) ==> HasNode(deps, cs, p, w) {
      forall d, x, y | d in deps && HasEdge(d, key, x, y) ensures IsListed(cs, p, NewName(cs, p, y)) {
        assert HasImage(deps, cs, p, key, NewName(cs, p, x), NewName(cs, p, y));
      }
    }
  }

  // ----- which documents are accepted -----

  /** t is v without its serial number and without the time in its metadata. */
  ghost predicate WithoutRun(v: Json, t: Json) {
    && v.Obj? && v.Get("metadata").Obj? && t.Obj? && t.Get("metadata").Obj?
    && (forall k {:trigger k in t.fields} :: k in t.fields <==> k in v.fields && k != "serialNumber")
    && (forall k :: k in t.fields && k != "metadata" ==> t.fields[k] == v.fields[k])
    && (forall k {:trigger k in t.Get("metadata").fields} ::
          k in t.Get("metadata").fields <==> k in v.Get("metadata").fields && k != "timestamp")
    && (forall k :: k in t.Get("metadata").fields ==> t.Get("metadata").fields[k] == v.Get("metadata").fields[k])
  }

  ghost predicate SchemaFine(v: Json) {
    && v.Obj? && v.Get("bomFormat") == Str("CycloneDX") && v.Get("specVersion") == Str("1.6")
    && NumberOf(v.Get("version")) == Some(1.0) && v.Get("metadata").Obj?
  }

  ghost predicate ContentsGood(doc: Json, p: Project) {
    && doc.Obj? && doc.Get("components").Arr? && doc.Get("dependencies").Arr?
    && ComponentsGood(doc.Get("components").items, p)
    && GraphGood(doc.Get("dependencies").items, doc.Get("components").items, p)
  }

  /** An acceptable document: what is left of it without the particulars of the run is clean, and without what is said
    * of local distributions its components and its graph are good.
    */
  ghost predicate IsAcceptable(v: Json, s: Setting) {
    && SchemaFine(v) && s.project.name != "" && s.project.version != ""
    && !IsLocal(ProjectName(s.project), s.file) && !IsLocal(ProjectUrl(s.project), s.file)
    && exists t, doc ::
         WithoutRun(v, t) && Clean(t, s.file) && doc == Stripped(t, s.file) && ContentsGood(doc, s.project)
  }

  lemma WithoutRunIff(v: Json, t: Json)
    requires v.Obj? && v.Get(METADATA).Obj?
    ensures WithoutRun(v, t) <==> t == Trimmed(v)
  {
    var r := Trimmed(v);
    TrimmedFields(v);
    if WithoutRun(v, t) {
      assert t.Get("metadata").fields == r.Get("metadata").fields;
      assert t.Get("metadata") == r.Get("metadata");
      assert t.fields.Keys == r.fields.Keys;
      assert t.fields == r.fields;
    }
  }

  lemma TrimmedFields(v: Json)
    requires v.Obj? && v.Get(METADATA).Obj?
    ensures WithoutRun(v, Trimmed(v))
  {
    KeysDistinct();
    assert METADATA in v.fields && SERIAL_NUMBER != METADATA;
    var t, m := Trimmed(v), v.Get(METADATA).fields;
    assert t.Get(METADATA) == Obj(m - {TIMESTAMP});
    assert t.fields.Keys == v.fields.Keys - {SERIAL_NUMBER};
  }

  lemma HeadedIff(v: Json, s: Setting)
    ensures Headed(v, s) <==> SchemaFine(v) && s.project.name != "" && s.project.version != ""
  {
    if v.Obj? {
      EqualIff(v.Get("version"), Int(1));
    }
  }

  lemma ContentsIff(doc: Json, p: Project)
    ensures Assemblable(doc, p) <==> ContentsGood(doc, p)
  {
    hide ComponentsFine, ComponentsGood, Acceptable, GraphGood, Catalogue, Projects, AliasesOf, HasReference;
    if doc.Obj? && doc.Get("components").Arr? && doc.Get("dependencies").Arr? {
      var cs, deps := doc.Get("components").items, doc.Get("dependencies").items;
      assert ItemsOf(doc, COMPONENTS) == cs && ItemsOf(doc, DEPENDENCIES) == deps;
      ComponentsIff(cs, p);
      if ComponentsFine(cs, p) {
        FineAreReferenced(cs, p);
        GraphIff(deps, cs, p);
      }
    }
  }

  lemma FineAreReferenced(cs: seq<Json>, p: Project)
    requires ComponentsFine(cs, p)
    ensures AllReferenced(cs)
  {
    hide HasReference, Agree, Distinct;
  }

  /** The accepted documents. */
  lemma AcceptsIff(v: Json, s: Setting)
    ensures Accepts(v, s) <==> IsAcceptable(v, s)
  {
    hide Headed, SchemaFine, WithoutRun, Clean, Cleanable, ContentsGood, Assemblable, Stripped, IsLocal, IsLocalPath,
      Trimmed;
    HeadedIff(v, s);
    HasMetadata(v, s);
    ProjectNameIs(s.project);
    IsLocalIff(ProjectName(s.project), s.file);
    IsLocalIff(ProjectUrl(s.project), s.file);
    if Headed(v, s) {
      forall t ensures WithoutRun(v, t) <==> t == Trimmed(v) {
        WithoutRunIff(v, t);
      }
      CleanableIff(Trimmed(v), s.file);
      ContentsIff(Document(v, s), s.project);
    }
  }

  lemma HasMetadata(v: Json, s: Setting)
    ensures Headed(v, s) ==> v.Obj? && v.Get(METADATA).Obj?
  {
  }

  // ----- the result -----

  /** The given component under the name of the project. */
  ghost predicate Renamed(c: Json, kept: Json, p: Project) {
    && c.Obj? && kept.Obj?
    && (forall k {:trigger k in kept.fields} :: k in kept.fields <==> k in c.fields || k == "bom-ref" || k == "purl")
    && (forall k :: k in c.fields && k != "bom-ref" && k != "purl" ==> kept.fields[k] == c.fields[k])
    && kept.Get("bom-ref") == Str(ProjectName(p)) && kept.Get("purl") == Str(ProjectUrl(p))
  }

  /** The components of the result: those that are not of the project, as they were, and the first of the project under
    * its name; in the order of their references.
    */
  ghost predicate ComponentsAre(cs: seq<Json>, p: Project, list: seq<Json>) {
    && (forall i, j, x, y :: 0 <= i < j < |list| && HasName(list[i], x) && HasName(list[j], y) ==> Before(x, y))
    && (exists i, kept :: 0 <= i < |cs| && OfProject(cs[i], p) && (forall j :: 0 <= j < i ==> !OfProject(cs[j], p))
          && Renamed(cs[i], kept, p)
          && forall c :: c in list <==> (c in cs && !OfProject(c, p)) || c == kept)
  }

  /** The names in the list come in order. */
  ghost predicate InOrder(items: seq<Json>) {
    forall i, j, x, y :: 0 <= i < j < |items| && items[i] == Str(x) && items[j] == Str(y) ==> Before(x, y)
  }

  ghost predicate IsNodeOf(d: Json, u: string) {
    d.Obj? && d.Get("ref") == Str(u)
  }

  /** The images of the edges from u, without those that come back to it; in order, and there only when there are any.
    */
  ghost predicate EdgesAre(deps: seq<Json>, cs: seq<Json>, p: Project, d: Json, u: string, key: string) {
    && (forall w :: HasEdge(d, key, u, w) <==> u != w && HasImage(deps, cs, p, key, u, w))
    && (d.Obj? && key in d.fields ==> d.fields[key].Arr? && d.fields[key].items != [] && InOrder(d.fields[key].items))
  }

  /** The nodes of the result: one for each component, in order. */
  ghost predicate NodesAre(deps: seq<Json>, cs: seq<Json>, p: Project, nodes: seq<Json>) {
    && (forall d :: d in nodes ==> NodeGood(d))
    && (forall i, j, x, y :: 0 <= i < j < |nodes| && IsNodeOf(nodes[i], x) && IsNodeOf(nodes[j], y) ==> Before(x, y))
    && (forall u :: IsListed(cs, p, u) <==> exists d :: d in nodes && IsNodeOf(d, u))
    && (forall d, u :: d in nodes && IsNodeOf(d, u) ==>
          EdgesAre(deps, cs, p, d, u, "dependsOn") && EdgesAre(deps, cs, p, d, u, "provides"))
  }

  lemma NamesInOrder(s: set<string>)
    ensures InOrder(Names(s).items) && (Names(s).items == [] <==> s == {})
  {
    hide Ascending;
    var order, items := SortedStrings(s), Names(s).items;
    forall i, j, x, y | 0 <= i < j < |items| && items[i] == Str(x) && items[j] == Str(y) ensures Before(x, y) {
      assert x == order[i] && y == order[j];
      AscendingAt(order, i, j);
      BeforeIff(x, y);
    }
    if s != {} {
      var x :| x in s;
      assert x in order;
    }
  }

  lemma AscendingAt(order: seq<string>, i: nat, j: nat)
    requires Ascending(StringLe, order) && i < j < |order|
    ensures StringLe(order[i], order[j]) && order[i] != order[j]
  {
  }

  lemma NodeLists(x: string, dependsOn: set<string>, provided: set<string>, f: Field)
    ensures
      var d, key := NodeOf(x, dependsOn, provided), Key(f);
      d.Obj? && (key in d.fields ==> d.fields[key].Arr? && d.fields[key].items != [] && InOrder(d.fields[key].items))
  {
    hide Names, InOrder;
    KeysDiffer();
    NamesInOrder(dependsOn);
    NamesInOrder(provided);
    NamesAreList(dependsOn);
    NamesAreList(provided);
  }

  lemma NamesAreList(s: set<string>)
    ensures Names(s).Arr?
  {
  }

  lemma WrittenEdges(deps: seq<Json>, cs: seq<Json>, p: Project, i: nat, f: Field)
    requires ComponentsFine(cs, p) && Acceptable(deps, AliasesOf(Projects(cs, p), p), Catalogue(cs, p).Keys)
    requires Canonical(Collected(deps, AliasesOf(Projects(cs, p), p)))
    requires i < |SortedStrings(Catalogue(cs, p).Keys)|
    ensures
      var n, u := Collected(deps, AliasesOf(Projects(cs, p), p)), SortedStrings(Catalogue(cs, p).Keys)[i];
      i < |Written(n)| && IsNode(Written(n)[i]) && IsNodeOf(Written(n)[i], u)
      && EdgesAre(deps, cs, p, Written(n)[i], u, Key(f))
  {
    hide IsNode, RefOf, HasReference, Projects, Merged, AliasesOf, HasEdge, HasImage, HasPreimage, Catalogue, Agree,
      Distinct, Canonical, NodeOf, NodesOf, InOrder, MergedComponents, Edges, Ascending;
    var n := Collected(deps, AliasesOf(Projects(cs, p), p));
    var order := SortedStrings(n.dependsOn.Keys);
    WrittenAt(n, i);
    var u, d := order[i], Written(n)[i];
    NodeIsObject(d);
    NodesOfAt(n, order);
    NodeLists(u, Targets(n.dependsOn, u), Targets(n.provided, u), f);
    EdgesMatch(deps, cs, p, d, u, f);
  }

  lemma EdgesMatch(deps: seq<Json>, cs: seq<Json>, p: Project, d: Json, u: string, f: Field)
    requires ComponentsFine(cs, p) && Acceptable(deps, AliasesOf(Projects(cs, p), p), Catalogue(cs, p).Keys)
    requires IsNode(d) && RefOf(d) == u
    requires Edges(d, f) == Targets(Merged(deps, f, AliasesOf(Projects(cs, p), p)), u)
    ensures forall w :: HasEdge(d, Key(f), u, w) <==> u != w && HasImage(deps, cs, p, Key(f), u, w)
  {
    hide IsNode, RefOf, HasReference, Projects, Merged, AliasesOf, HasEdge, HasImage, HasPreimage, Catalogue, Agree,
      Distinct, MergedComponents, Complete, OfProject;
    forall w ensures HasEdge(d, Key(f), u, w) <==> u != w && HasImage(deps, cs, p, Key(f), u, w) {
      HasEdgeIff(d, f, u, w);
      EdgesAreAliasImages(deps, f, AliasesOf(Projects(cs, p), p), u, w);
      HasImageIff(deps, cs, p, f, u, w);
    }
  }

  lemma CollectedCanonical(deps: seq<Json>, cs: seq<Json>, p: Project)
    requires ComponentsFine(cs, p) && Acceptable(deps, AliasesOf(Projects(cs, p), p), Catalogue(cs, p).Keys)
    ensures Canonical(Collected(deps, AliasesOf(Projects(cs, p), p)))
  {
    hide IsNode, HasReference, Projects, Merged, AliasesOf, Catalogue, Agree, Distinct, Canonical, MergedComponents,
      OfProject, HasName;
    ListedIff(cs, p, "");
    NotEmpty(cs, p);
    CollectedIsCanonical(deps, AliasesOf(Projects(cs, p), p), Catalogue(cs, p).Keys);
  }

  lemma NotEmpty(cs: seq<Json>, p: Project)
    ensures !IsListed(cs, p, "")
  {
    assert |ProjectName(p)| >= 2;
  }

  ghost predicate IsNodeFor(deps: seq<Json>, cs: seq<Json>, p: Project, d: Json, u: string) {
    NodeGood(d) && IsNodeOf(d, u) && EdgesAre(deps, cs, p, d, u, "dependsOn") && EdgesAre(deps, cs, p, d, u, "provides")
  }

  lemma NodesFollow(deps: seq<Json>, cs: seq<Json>, p: Project, nodes: seq<Json>, order: seq<string>)
    requires |nodes| == |order| && Ascending(StringLe, order)
    requires forall i :: 0 <= i < |nodes| ==> IsNodeFor(deps, cs, p, nodes[i], order[i])
    requires forall u :: IsListed(cs, p, u) <==> u in order
    ensures NodesAre(deps, cs, p, nodes)
  {
    hide NodeGood, EdgesAre, IsListed, Ascending;
    forall i, j, x, y | 0 <= i < j < |nodes| && IsNodeOf(nodes[i], x) && IsNodeOf(nodes[j], y) ensures Before(x, y) {
      AscendingAt(order, i, j);
      BeforeIff(x, y);
    }
    forall u ensures IsListed(cs, p, u) <==> exists d :: d in nodes && IsNodeOf(d, u) {
      if u in order {
        var i :| 0 <= i < |order| && order[i] == u;
        assert nodes[i] in nodes && IsNodeOf(nodes[i], u);
      }
      if d :| d in nodes && IsNodeOf(d, u) {
        var i :| 0 <= i < |nodes| && nodes[i] == d;
      }
    }
    forall d, u | d in nodes && IsNodeOf(d, u) ensures IsNodeFor(deps, cs, p, d, u) {
      var i :| 0 <= i < |nodes| && nodes[i] == d;
    }
  }

  lemma NodesWritten(deps: seq<Json>, cs: seq<Json>, p: Project)
    requires ComponentsFine(cs, p) && Acceptable(deps, AliasesOf(Projects(cs, p), p), Catalogue(cs, p).Keys)
    ensures NodesAre(deps, cs, p, Written(Collected(deps, AliasesOf(Projects(cs, p), p))))
  {
    hide IsNode, HasReference, Projects, Merged, AliasesOf, Catalogue, Agree, Distinct, Canonical, MergedComponents,
      IsListed, EdgesAre, NodeGood, NodesOf, NodesAre, Ascending, Complete;
    CollectedCanonical(deps, cs, p);
    var n := Collected(deps, AliasesOf(Projects(cs, p), p));
    var order, nodes := SortedStrings(n.dependsOn.Keys), Written(n);
    forall i | 0 <= i < |order| ensures i < |nodes| && IsNodeFor(deps, cs, p, nodes[i], order[i]) {
      WrittenEdges(deps, cs, p, i, DependsOn);
      WrittenEdges(deps, cs, p, i, Provides);
      NodeGoodIff(nodes[i]);
    }
    CanonicalLength(n);
    forall u ensures IsListed(cs, p, u) <==> u in order {
      ListedIff(cs, p, u);
    }
    NodesFollow(deps, cs, p, nodes, order);
  }

  lemma CanonicalLength(n: Nodes)
    requires Canonical(n)
    ensures |Written(n)| == |SortedStrings(n.dependsOn.Keys)|
  {
    WrittenLength(n);
  }

  lemma CanonicalRenames(c: Json, p: Project)
    requires c.Obj?
    ensures Renamed(c, CanonicalComponent(c, p), p)
  {
    ProjectNameIs(p);
    KeysApart();
  }

  lemma {:induction false} FirstOfProject(cs: seq<Json>, p: Project) returns (i: nat)
    requires AllReferenced(cs) && Projects(cs, p) != []
    ensures i < |cs| && cs[i] == Projects(cs, p)[0] && OfProject(cs[i], p)
      && forall j :: 0 <= j < i ==> !OfProject(cs[j], p)
    decreases |cs|
  {
    hide OfProject, IsProject, HasReference;
    assert AllReferenced(cs[1..]);
    ReferencedIsObject(cs, cs[0]);
    OfProjectIff(cs[0], p);
    if IsProject(cs[0], p) {
      i := 0;
    } else {
      var j := FirstOfProject(cs[1..], p);
      i := j + 1;
      forall k | 0 <= k < i ensures !OfProject(cs[k], p) {
        assert k > 0 ==> cs[k] == cs[1..][k - 1];
      }
    }
  }

  lemma ListedInOrder(m: map<string, Json>)
    requires KeyedByReference(m)
    ensures forall i, j, x, y :: 0 <= i < j < |Listed(m)| && HasName(Listed(m)[i], x) && HasName(Listed(m)[j], y) ==>
      Before(x, y)
  {
    hide HasName, HasReference, Listed, Ascending;
    var list, order := Listed(m), SortedStrings(m.Keys);
    ListedLength(m);
    forall i, x | 0 <= i < |list| && HasName(list[i], x) ensures x == order[i] {
      ListedAt(m, i);
      HasNameIff(list[i], x);
    }
    forall i, j, x, y | 0 <= i < j < |list| && HasName(list[i], x) && HasName(list[j], y) ensures Before(x, y) {
      AscendingAt(order, i, j);
      BeforeIff(x, y);
    }
  }

  lemma ComponentsListed(cs: seq<Json>, p: Project)
    requires ComponentsFine(cs, p)
    ensures ComponentsAre(cs, p, Listed(Catalogue(cs, p)))
  {
    hide OfProject, HasName, HasReference, CanonicalComponent, Distinct, Renamed, Listed, Catalogue, MergedComponents;
    var m := Catalogue(cs, p);
    var list := Listed(m);
    CatalogueKeyed(cs, p);
    ListedInOrder(m);
    MergedAre(cs, p, Null);
    var i := FirstOfProject(cs, p);
    var kept := CanonicalComponent(cs[i], p);
    CanonicalRenames(cs[i], p);
    forall c ensures c in list <==> (c in cs && !OfProject(c, p)) || c == kept {
      ListedMerged(cs, p, c);
      MergedAre(cs, p, c);
    }
  }

  /** The result: the document without the particulars of the run and without what is said of local distributions, with
    * its components merged and in order, and the graph between them.
    */
  lemma ResultIs(v: Json, s: Setting)
    requires Accepts(v, s)
    ensures
      var doc, out := Document(v, s), Form(v, s);
      && WithoutRun(v, Trimmed(v)) && Cleaned(Trimmed(v), doc, s.file)
      && doc.Get("components").Arr? && doc.Get("dependencies").Arr?
      && out.Obj? && out.fields.Keys == doc.fields.Keys
      && (forall k :: k in doc.fields && k != "components" && k != "dependencies" ==> out.fields[k] == doc.fields[k])
      && out.Get("components").Arr? && out.Get("dependencies").Arr?
      && ComponentsAre(doc.Get("components").items, s.project, out.Get("components").items)
      && NodesAre(doc.Get("dependencies").items, doc.Get("components").items, s.project, out.Get("dependencies").items)
  {
    hide WithoutRun, Cleaned, Stripped, Cleanable, ComponentsFine, Acceptable, ComponentsAre, NodesAre, Listed,
      Catalogue,
      Written, Collected, IsLocalPath, Trimmed, AllNodes, AllReferenced;
    HasMetadata(v, s);
    TrimmedFields(v);
    StrippedIsCleaned(Trimmed(v), s.file);
    var doc := Document(v, s);
    var cs, deps := doc.Get("components").items, doc.Get("dependencies").items;
    assert ItemsOf(doc, COMPONENTS) == cs && ItemsOf(doc, DEPENDENCIES) == deps;
    ComponentsListed(cs, s.project);
    NodesWritten(deps, cs, s.project);
    FieldsApart();
  }

  lemma FieldsApart()
    ensures COMPONENTS != DEPENDENCIES
  {
    KeysDistinct();
  }
}
