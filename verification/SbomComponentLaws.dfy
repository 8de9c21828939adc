/** Reading the merged components again changes nothing, and the order in which they were given matters only for which
  * of several Python-equal spellings of the project component is kept (scripts/generate_sbom.py:121-198).
  */
module SbomComponentLaws {
  import opened CycloneDx
  import opened Json
  import opened SbomComponents
  import opened SbomGraph
  import opened SbomMerging
  import opened SbomSanitizing

  // ----- idempotence -----

  lemma KeysApart()
    ensures "name" !in {BOM_REF, PURL} && "version" !in {BOM_REF, PURL} && "type" !in {BOM_REF, PURL} && BOM_REF != PURL
  {
    assert |BOM_REF| == 7 && |PURL| == 4 && |"name"| == 4 && |"version"| == 7 && |"type"| == 4;
    assert PURL[0] == 'p' && "name"[0] == 'n' && "type"[0] == 't' && "version"[0] == 'v' && BOM_REF[0] == 'b';
  }

  lemma CanonicalKeeps(c: Json, p: Project)
    requires c.Obj? && IsProject(c, p) && Identified(c, p)
    ensures
      var d := CanonicalComponent(c, p);
      IsProject(d, p) && Identified(d, p) && CanonicalComponent(d, p) == d
  {
    KeysApart();
    var d := CanonicalComponent(c, p);
    assert d.Get("name") == c.Get("name") && d.Get("version") == c.Get("version") && d.Get("type") == c.Get("type");
    assert d.Get(PURL) == Str(p.Purl());
    assert d.fields[BOM_REF := Str(p.Reference())][PURL := Str(p.Purl())] == d.fields;
  }

  /** Whatever is listed is what was merged. */
  lemma ListedMerged(cs: seq<Json>, p: Project, c: Json)
    requires ComponentsFine(cs, p)
    ensures KeyedByReference(Catalogue(cs, p)) && WellReferenced(Listed(Catalogue(cs, p)))
    ensures c in Listed(Catalogue(cs, p)) <==> c in MergedComponents(cs, p)
  {
    var m := MergedComponents(cs, p);
    ByReferenceKeyed(m);
    ListedReadsBack(Catalogue(cs, p));
    ListedMembers(Catalogue(cs, p), c);
    ByReferenceAt(m, c);
    hide HasReference, ReferenceOf, ByReference, MergedComponents, Agree, Listed;
  }

  lemma ListedProjects(cs: seq<Json>, p: Project)
    requires ComponentsFine(cs, p)
    ensures WellReferenced(Listed(Catalogue(cs, p)))
    ensures
      var l, c := Listed(Catalogue(cs, p)), CanonicalComponent(Projects(cs, p)[0], p);
      Projects(l, p) != [] && forall x :: x in Projects(l, p) <==> x == c
  {
    var first := Projects(cs, p)[0];
    var c := CanonicalComponent(first, p);
    assert first in Projects(cs, p);
    CanonicalKeeps(first, p);
    ListedMerged(cs, p, c);
    CatalogueMembers(cs, p, c);
    var l := Listed(Catalogue(cs, p));
    hide HasReference, ReferenceOf, IsProject, Identified, CanonicalComponent, MergedComponents, Catalogue, Listed,
      Agree, Distinct;
    assert c in l;
    assert forall i :: 0 <= i < |l| ==> HasReference(l[i]);
    forall x | x in Projects(l, p) ensures x == c {
      ListedMerged(cs, p, x);
      CatalogueMembers(cs, p, x);
    }
    assert c in Projects(l, p);
  }

  lemma OnlyOneAgrees(projects: seq<Json>, c: Json, p: Project)
    requires AllReferenced(projects) && projects != [] && c.Obj? && Identified(c, p)
    requires forall x :: x in projects <==> x == c
    ensures Agree(projects, p) && projects[0] == c
  {
    assert forall i :: 0 <= i < |projects| ==> projects[i] in projects;
  }

  /** The result's components are accepted again, with no alias that changes a name, and listed as they are. */
  lemma ComponentsReadBack(cs: seq<Json>, p: Project)
    requires ComponentsFine(cs, p)
    ensures
      var l := Listed(Catalogue(cs, p));
      ComponentsFine(l, p) && Catalogue(l, p) == Catalogue(cs, p)
        && forall x :: Alias(AliasesOf(Projects(l, p), p), x) == x
  {
    var l, c := Listed(Catalogue(cs, p)), CanonicalComponent(Projects(cs, p)[0], p);
    assert Projects(cs, p)[0] in Projects(cs, p);
    CanonicalKeeps(Projects(cs, p)[0], p);
    CanonicalReferenced(Projects(cs, p)[0], p);
    ListedProjects(cs, p);
    hide HasReference, IsProject, Identified, CanonicalComponent, MergedComponents, Listed, Catalogue, Remaining;
    var projects := Projects(l, p);
    OnlyOneAgrees(projects, c, p);
    DistinctIffReferenceFree(l, p);
    forall x | x in l && !IsProject(x, p) ensures ReferenceOf(x) != p.Reference() {
      ListedMerged(cs, p, x);
      CatalogueMembers(cs, p, x);
      DistinctIffReferenceFree(cs, p);
    }
    assert ComponentsFine(l, p);
    CatalogueReadBack(cs, l, c, p);
    forall x ensures Alias(AliasesOf(projects, p), x) == x {
      SingleAlias(projects, c, p, x);
    }
  }

  lemma SingleAlias(projects: seq<Json>, c: Json, p: Project, x: string)
    requires AllReferenced(projects) && projects != [] && (forall y :: y in projects <==> y == c)
    requires HasReference(c) && ReferenceOf(c) == p.Reference()
    ensures Alias(AliasesOf(projects, p), x) == x
  {
    hide HasReference, ReferenceOf;
    if x in AliasesOf(projects, p) {
      var i :| 0 <= i < |projects| && ReferenceOf(projects[i]) == x;
      assert projects[i] in projects;
    }
  }

  lemma CatalogueIs(cs: seq<Json>, p: Project)
    requires ComponentsFine(cs, p)
    ensures Catalogue(cs, p) == ByReference(MergedComponents(cs, p))
  {
  }

  lemma CatalogueReadBack(cs: seq<Json>, l: seq<Json>, c: Json, p: Project)
    requires ComponentsFine(cs, p) && ComponentsFine(l, p) && l == Listed(Catalogue(cs, p))
    requires c == CanonicalComponent(Projects(cs, p)[0], p) && c.Obj? && CanonicalComponent(c, p) == c
      && IsProject(c, p)
    requires Projects(l, p)[0] == c
    ensures Catalogue(l, p) == Catalogue(cs, p)
  {
    var again, before := MergedComponents(l, p), MergedComponents(cs, p);
    assert WellReferenced(again) && WellReferenced(before);
    hide HasReference, IsProject, CanonicalComponent, Listed, MergedComponents, ComponentsFine, WellReferenced,
      ByReference, Catalogue;
    forall x ensures x in again <==> x in before {
      CatalogueMembers(l, p, x);
      CatalogueMembers(cs, p, x);
      ListedMerged(cs, p, x);
    }
    SameMembersSameMap(again, before);
    CatalogueIs(l, p);
    CatalogueIs(cs, p);
  }

  // ----- order -----

  lemma {:induction false} DistinctCount(cs: seq<Json>, c: Json)
    requires WellReferenced(cs)
    ensures multiset(cs)[c] <= 1
  {
    hide HasReference, ReferenceOf;
    if cs != [] {
      var n := |cs| - 1;
      var front, last := cs[..n], cs[n];
      DistinctCount(front, c);
      assert cs == front + [last];
      forall i | 0 <= i < n ensures front[i] != last {
        assert ReferenceOf(cs[i]) != ReferenceOf(cs[n]);
      }
      assert last !in multiset(front);
    }
  }

  /** Permuting a list keeps its references usable and distinct. */
  lemma PermutedReferenced(a: seq<Json>, b: seq<Json>)
    requires WellReferenced(a) && multiset(a) == multiset(b)
    ensures WellReferenced(b) && forall x :: x in a <==> x in b
  {
    hide HasReference, ReferenceOf;
    assert forall x :: x in a <==> x in multiset(a);
    assert forall x :: x in b <==> x in multiset(b);
    forall j | 0 <= j < |b| ensures HasReference(b[j]) {
      assert b[j] in a;
    }
    forall i, j | 0 <= i < j < |b| ensures ReferenceOf(b[i]) != ReferenceOf(b[j]) {
      assert b[i] in a && b[j] in a;
      if b[i] == b[j] {
        assert b == b[..j] + b[j..];
        assert b[i] in b[..j] && b[j] in b[j..];
        assert multiset(b) == multiset(b[..j]) + multiset(b[j..]);
        DistinctCount(a, b[i]);
      }
    }
  }

  lemma PermutedProjects(a: seq<Json>, b: seq<Json>, p: Project)
    requires WellReferenced(a) && WellReferenced(b) && forall x :: x in a <==> x in b
    ensures forall x :: x in Projects(a, p) <==> x in Projects(b, p)
    ensures Agree(Projects(a, p), p) ==> Agree(Projects(b, p), p)
    ensures AliasesOf(Projects(a, p), p) == AliasesOf(Projects(b, p), p)
  {
    var ps, qs := Projects(a, p), Projects(b, p);
    hide HasReference, ReferenceOf, Identified, Body, PythonEqual, Projects, Agree;
    assert forall x :: x in ps <==> x in qs;
    if Agree(ps, p) {
      SameAgree(ps, qs, p);
    }
    SameReferences(ps, qs);
    SameReferences(qs, ps);
    assert References(ps) == References(qs);
  }

  lemma SameAgree(ps: seq<Json>, qs: seq<Json>, p: Project)
    requires AllReferenced(ps) && AllReferenced(qs) && Agree(ps, p) && forall x :: x in ps <==> x in qs
    ensures Agree(qs, p)
  {
    hide IsName, Identified, Body, Norm;
    assert ps[0] in qs;
    forall j | 0 <= j < |qs| ensures Identified(qs[j], p) && PythonEqual(Body(qs[j]), Body(ps[0])) {
      assert qs[j] in ps;
      var i :| 0 <= i < |ps| && ps[i] == qs[j];
    }
  }

  lemma SameReferences(a: seq<Json>, b: seq<Json>)
    requires AllReferenced(a) && AllReferenced(b) && forall x :: x in a ==> x in b
    ensures References(a) <= References(b)
  {
    hide HasReference, ReferenceOf;
    forall r | r in References(a) ensures r in References(b) {
      var i :| 0 <= i < |a| && ReferenceOf(a[i]) == r;
      assert a[i] in b;
      var j :| 0 <= j < |b| && b[j] == a[i];
    }
  }

  /** Acceptance of the components does not depend on their order. */
  lemma PermutedFine(a: seq<Json>, b: seq<Json>, p: Project)
    requires multiset(a) == multiset(b) && ComponentsFine(a, p)
    ensures ComponentsFine(b, p)
  {
    PermutedReferenced(a, b);
    PermutedProjects(a, b, p);
    hide HasReference, ReferenceOf, Distinct, IsProject, Agree, MergedComponents;
    assert Projects(a, p) != [] && Projects(b, p) != [] by {
      AgreeingExist(Projects(a, p), p);
      AgreeingExist(Projects(b, p), p);
    }
    DistinctIffReferenceFree(a, p);
    DistinctIffReferenceFree(b, p);
  }

  lemma AgreeingExist(projects: seq<Json>, p: Project)
    requires AllReferenced(projects) && Agree(projects, p)
    ensures projects != []
  {
  }

  /** The canonical component of the result. */
  function KeptProject(cs: seq<Json>, p: Project): Json
    requires ComponentsFine(cs, p)
  {
    CanonicalComponent(Projects(cs, p)[0], p)
  }

  lemma CanonicalFromBody(c: Json, d: Json, p: Project)
    requires c.Obj? && d.Obj?
    ensures PythonEqual(Body(c), Body(d)) ==> PythonEqual(CanonicalComponent(c, p), CanonicalComponent(d, p))
    ensures Body(c) == Body(d) <==> CanonicalComponent(c, p) == CanonicalComponent(d, p)
  {
    KeysApart();
    var x, y := CanonicalComponent(c, p), CanonicalComponent(d, p);
    assert Body(x).fields == Body(c).fields && Body(y).fields == Body(d).fields;
    assert x.fields == Body(c).fields[BOM_REF := Str(p.Reference())][PURL := Str(p.Purl())];
    assert y.fields == Body(d).fields[BOM_REF := Str(p.Reference())][PURL := Str(p.Purl())];
    if PythonEqual(Body(c), Body(d)) {
      NormOfUpdate(Body(c).fields, Body(d).fields, p);
    }
  }

  lemma NormOfUpdate(f: map<string, Json>, g: map<string, Json>, p: Project)
    requires PythonEqual(Obj(f), Obj(g))
    ensures PythonEqual(Obj(f[BOM_REF := Str(p.Reference())][PURL := Str(p.Purl())]),
      Obj(g[BOM_REF := Str(p.Reference())][PURL := Str(p.Purl())]))
  {
    var nf, ng := Norm(Obj(f)).fields, Norm(Obj(g)).fields;
    assert nf == ng && f.Keys == nf.Keys && g.Keys == ng.Keys;
    forall k | k in f ensures k in g && Norm(f[k]) == Norm(g[k]) {
      assert nf[k] == ng[k];
    }
    var f2, g2 := f[BOM_REF := Str(p.Reference())][PURL := Str(p.Purl())],
      g[BOM_REF := Str(p.Reference())][PURL := Str(p.Purl())];
    assert Norm(Obj(f2)).fields == Norm(Obj(g2)).fields;
  }

  lemma KeptIsListed(cs: seq<Json>, p: Project)
    requires ComponentsFine(cs, p)
    ensures p.Reference() in Catalogue(cs, p) && Catalogue(cs, p)[p.Reference()] == KeptProject(cs, p)
  {
    var m := MergedComponents(cs, p);
    CanonicalReferenced(Projects(cs, p)[0], p);
    CatalogueMembers(cs, p, KeptProject(cs, p));
    ByReferenceAt(m, KeptProject(cs, p));
    hide HasReference, ReferenceOf, IsProject, CanonicalComponent, MergedComponents, ByReference, Agree;
  }

  lemma OthersCarryOver(a: seq<Json>, b: seq<Json>, p: Project, r: string)
    requires ComponentsFine(a, p) && ComponentsFine(b, p) && forall x :: x in a <==> x in b
    requires r != p.Reference() && r in Catalogue(a, p)
    ensures r in Catalogue(b, p) && Catalogue(b, p)[r] == Catalogue(a, p)[r]
  {
    var m, n := MergedComponents(a, p), MergedComponents(b, p);
    assert WellReferenced(m) && WellReferenced(n);
    ByReferenceKeyed(m);
    var c := Catalogue(a, p)[r];
    assert HasReference(c) && ReferenceOf(c) == r;
    ByReferenceAt(m, c);
    CatalogueMembers(a, p, c);
    CatalogueMembers(b, p, c);
    CanonicalReferenced(Projects(a, p)[0], p);
    ByReferenceAt(n, c);
    hide HasReference, ReferenceOf, IsProject, CanonicalComponent, MergedComponents, ByReference, Agree;
  }

  /** In another order the same components are listed, but the project's may be spelled otherwise. */
  lemma PermutedCatalogue(a: seq<Json>, b: seq<Json>, p: Project)
    requires multiset(a) == multiset(b) && ComponentsFine(a, p) && ComponentsFine(b, p)
    ensures AliasesOf(Projects(a, p), p) == AliasesOf(Projects(b, p), p)
    ensures p.Reference() in Catalogue(a, p) && Catalogue(a, p)[p.Reference()] == KeptProject(a, p)
    ensures Catalogue(b, p) == Catalogue(a, p)[p.Reference() := KeptProject(b, p)]
    ensures PythonEqual(KeptProject(a, p), KeptProject(b, p))
  {
    PermutedReferenced(a, b);
    PermutedProjects(a, b, p);
    KeptIsListed(a, p);
    KeptIsListed(b, p);
    KeptAgree(a, b, p);
    var m, n := Catalogue(a, p), Catalogue(b, p);
    hide ComponentsFine, Catalogue, KeptProject, Projects, PythonEqual, WellReferenced, AliasesOf;
    forall r | r != p.Reference() && r in m ensures r in n && n[r] == m[r] {
      OthersCarryOver(a, b, p, r);
    }
    forall r | r != p.Reference() && r in n ensures r in m {
      OthersCarryOver(b, a, p, r);
    }
    OneKeyDiffers(m, n, p.Reference());
  }

  lemma OneKeyDiffers(m: map<string, Json>, n: map<string, Json>, key: string)
    requires key in m && key in n
    requires forall r :: r != key && r in m ==> r in n && n[r] == m[r]
    requires forall r :: r != key && r in n ==> r in m
    ensures n == m[key := n[key]]
  {
    forall r ensures r in n <==> r in m[key := n[key]] {
    }
  }

  lemma KeptAgree(a: seq<Json>, b: seq<Json>, p: Project)
    requires ComponentsFine(a, p) && ComponentsFine(b, p) && forall x :: x in a <==> x in b
    ensures PythonEqual(KeptProject(a, p), KeptProject(b, p))
  {
    var ps, qs := Projects(a, p), Projects(b, p);
    hide HasReference, IsProject, Norm, Body, CanonicalComponent, MergedComponents, Distinct, Identified;
    assert qs[0] in b;
    assert qs[0] in ps;
    var i :| 0 <= i < |ps| && ps[i] == qs[0];
    assert PythonEqual(Body(ps[i]), Body(ps[0]));
    CanonicalFromBody(ps[0], qs[0], p);
  }

  /** All spellings of the project component are the same, apart from references and package URLs. */
  ghost predicate SameBodies(cs: seq<Json>, p: Project)
    requires AllReferenced(cs)
  {
    forall x, y :: x in Projects(cs, p) && y in Projects(cs, p) ==> Body(x) == Body(y)
  }

  /** Every order gives the same catalogue exactly when all spellings are the same. */
  lemma CatalogueIffSameBodies(a: seq<Json>, p: Project)
    requires ComponentsFine(a, p)
    ensures SameBodies(a, p) <==> forall b :: multiset(a) == multiset(b) && ComponentsFine(b, p) ==>
      Catalogue(b, p) == Catalogue(a, p)
  {
    if SameBodies(a, p) {
      forall b | multiset(a) == multiset(b) && ComponentsFine(b, p) ensures Catalogue(b, p) == Catalogue(a, p) {
        SameBodiesSameCatalogue(a, b, p);
      }
    } else {
      var i := DifferentSpellings(a, p);
      assert Catalogue(MovedToFront(a, i), p) != Catalogue(a, p);
    }
  }

  lemma SameBodiesKeepOne(a: seq<Json>, b: seq<Json>, p: Project)
    requires ComponentsFine(a, p) && ComponentsFine(b, p) && SameBodies(a, p)
      && forall x :: x in Projects(a, p) <==> x in Projects(b, p)
    ensures KeptProject(b, p) == KeptProject(a, p)
  {
    var ps, qs := Projects(a, p), Projects(b, p);
    assert ps != [] && qs != [];
    CanonicalFromBody(ps[0], qs[0], p);
    hide HasReference, IsProject, PythonEqual, Body, CanonicalComponent, WellReferenced, Agree, MergedComponents;
    assert qs[0] in qs;
    assert qs[0] in ps && ps[0] in ps;
  }

  lemma PermutedKeepOne(a: seq<Json>, b: seq<Json>, p: Project)
    requires multiset(a) == multiset(b) && ComponentsFine(a, p) && ComponentsFine(b, p) && SameBodies(a, p)
    ensures KeptProject(b, p) == KeptProject(a, p)
  {
    hide KeptProject, Projects, SameBodies, Distinct, Agree, HasReference, ReferenceOf, MergedComponents;
    PermutedReferenced(a, b);
    PermutedProjects(a, b, p);
    SameBodiesKeepOne(a, b, p);
  }

  lemma SameBodiesSameCatalogue(a: seq<Json>, b: seq<Json>, p: Project)
    requires multiset(a) == multiset(b) && ComponentsFine(a, p) && ComponentsFine(b, p) && SameBodies(a, p)
    ensures Catalogue(b, p) == Catalogue(a, p)
  {
    hide *;
    PermutedKeepOne(a, b, p);
    PermutedCatalogue(a, b, p);
    var m := Catalogue(a, p);
    assert m[p.Reference() := m[p.Reference()]] == m;
  }

  /** The component at position i moved to the front. */
  function MovedToFront(cs: seq<Json>, i: nat): (r: seq<Json>)
    requires i < |cs|
    ensures multiset(r) == multiset(cs)
  {
    assert cs == cs[..i] + ([cs[i]] + cs[i + 1..]);
    [cs[i]] + cs[..i] + cs[i + 1..]
  }

  lemma DifferentSpellings(a: seq<Json>, p: Project) returns (i: nat)
    requires ComponentsFine(a, p) && !SameBodies(a, p)
    ensures i < |a| && ComponentsFine(MovedToFront(a, i), p) && Catalogue(MovedToFront(a, i), p) != Catalogue(a, p)
  {
    var ps := Projects(a, p);
    var x, y :| x in ps && y in ps && Body(x) != Body(y);
    var d := if Body(x) == Body(ps[0]) then y else x;
    assert d in a && IsProject(d, p);
    i :| 0 <= i < |a| && a[i] == d;
    var b := MovedToFront(a, i);
    PermutedFine(a, b, p);
    PermutedCatalogue(a, b, p);
    assert b[0] == d;
    FirstProject(b, p);
    CanonicalFromBody(ps[0], d, p);
    KeptIsListed(b, p);
    hide HasReference, IsProject, Norm, Body, CanonicalComponent, MergedComponents, Distinct, Identified, Catalogue;
  }

  lemma FirstProject(cs: seq<Json>, p: Project)
    requires AllReferenced(cs) && cs != [] && IsProject(cs[0], p)
    ensures Projects(cs, p) != [] && Projects(cs, p)[0] == cs[0]
  {
  }
}
