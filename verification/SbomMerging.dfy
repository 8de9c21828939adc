/** The merged component list (scripts/generate_sbom.py:121-198, 283-296): what becomes of it when it is read again, and
  * when it was given in another order.
  */
module SbomMerging {
  import opened CycloneDx
  import opened Json
  import opened SbomComponents
  import opened SbomGraph
  import opened SbomSanitizing
  import opened Sorting
  import opened Wrappers

  // ----- lists of components as maps -----

  function ByReference(cs: seq<Json>): map<string, Json>
    requires WellReferenced(cs)
  {
    map i | 0 <= i < |cs| :: ReferenceOf(cs[i]) := cs[i]
  }

  lemma SameMembersSameMap(a: seq<Json>, b: seq<Json>)
    requires WellReferenced(a) && WellReferenced(b) && forall x :: x in a <==> x in b
    ensures ByReference(a) == ByReference(b)
  {
    hide HasReference;
    MembersIncluded(a, b);
    MembersIncluded(b, a);
  }

  lemma MembersIncluded(a: seq<Json>, b: seq<Json>)
    requires WellReferenced(a) && WellReferenced(b) && forall x :: x in a ==> x in b
    ensures forall r :: r in ByReference(a) ==> r in ByReference(b) && ByReference(b)[r] == ByReference(a)[r]
  {
    hide HasReference, ReferenceOf;
    forall r | r in ByReference(a) ensures r in ByReference(b) && ByReference(b)[r] == ByReference(a)[r] {
      var i :| 0 <= i < |a| && ReferenceOf(a[i]) == r;
      assert a[i] in b;
      var j :| 0 <= j < |b| && b[j] == a[i];
    }
  }

  function ListedIn(m: map<string, Json>, order: seq<string>): seq<Json>
    requires forall x :: x in order ==> x in m
  {
    if order == [] then [] else assert order[0] in order; [m[order[0]]] + ListedIn(m, order[1..])
  }

  /** The components in the order of their references. */
  function Listed(m: map<string, Json>): seq<Json> {
    ListedIn(m, SortedStrings(m.Keys))
  }

  ghost predicate KeyedByReference(m: map<string, Json>) {
    forall r :: r in m ==> HasReference(m[r]) && ReferenceOf(m[r]) == r
  }

  lemma {:induction false} ListedInAt(m: map<string, Json>, order: seq<string>)
    requires forall x :: x in order ==> x in m
    ensures |ListedIn(m, order)| == |order|
    ensures forall i :: 0 <= i < |order| ==> order[i] in m && ListedIn(m, order)[i] == m[order[i]]
  {
    if order != [] {
      assert forall x :: x in order[1..] ==> x in order;
      ListedInAt(m, order[1..]);
      assert forall i :: 0 <= i < |order| ==> order[i] in order;
    }
  }

  lemma ListedAt(m: map<string, Json>, i: nat)
    requires KeyedByReference(m) && i < |SortedStrings(m.Keys)|
    ensures |Listed(m)| == |SortedStrings(m.Keys)|
    ensures
      var r := SortedStrings(m.Keys)[i];
      r in m && Listed(m)[i] == m[r] && HasReference(m[r]) && ReferenceOf(m[r]) == r
  {
    ListedInAt(m, SortedStrings(m.Keys));
    hide HasReference, ReferenceOf, ListedIn, Ascending;
    assert SortedStrings(m.Keys)[i] in m;
  }

  lemma ListedIsReferenced(m: map<string, Json>)
    requires KeyedByReference(m)
    ensures WellReferenced(Listed(m))
  {
    var order, l := SortedStrings(m.Keys), Listed(m);
    ListedInAt(m, order);
    hide HasReference, ReferenceOf, ListedIn, Listed, KeyedByReference;
    assert |l| == |order|;
    forall i | 0 <= i < |l| ensures HasReference(l[i]) && ReferenceOf(l[i]) == order[i] {
      ListedAt(m, i);
    }
  }

  lemma ListedFound(m: map<string, Json>, c: Json)
    requires KeyedByReference(m) && c in Listed(m)
    ensures HasReference(c) && ReferenceOf(c) in m && m[ReferenceOf(c)] == c
  {
    ListedInAt(m, SortedStrings(m.Keys));
    hide ReferenceOf, HasReference, ListedIn, Listed, Ascending, KeyedByReference;
    var i :| 0 <= i < |Listed(m)| && Listed(m)[i] == c;
    ListedLength(m);
    ListedAt(m, i);
  }

  lemma FoundListed(m: map<string, Json>, r: string)
    requires KeyedByReference(m) && r in m
    ensures m[r] in Listed(m)
  {
    hide ReferenceOf, HasReference, Listed, Ascending, KeyedByReference;
    var order := SortedStrings(m.Keys);
    assert r in order;
    var i :| 0 <= i < |order| && order[i] == r;
    ListedAt(m, i);
    assert Listed(m)[i] == m[r];
  }

  lemma ListedLength(m: map<string, Json>)
    ensures |Listed(m)| == |SortedStrings(m.Keys)|
  {
    ListedInAt(m, SortedStrings(m.Keys));
    hide ListedIn, Ascending;
  }

  lemma ListedMembers(m: map<string, Json>, c: Json)
    requires KeyedByReference(m)
    ensures c in Listed(m) <==> HasReference(c) && ReferenceOf(c) in m && m[ReferenceOf(c)] == c
  {
    hide ReferenceOf, HasReference, Listed, KeyedByReference;
    if c in Listed(m) {
      ListedFound(m, c);
    } else if HasReference(c) && ReferenceOf(c) in m {
      FoundListed(m, ReferenceOf(c));
    }
  }

  lemma ByReferenceAt(cs: seq<Json>, c: Json)
    requires WellReferenced(cs)
    ensures c in cs ==> HasReference(c) && ReferenceOf(c) in ByReference(cs) && ByReference(cs)[ReferenceOf(c)] == c
    ensures HasReference(c) && ReferenceOf(c) in ByReference(cs) && ByReference(cs)[ReferenceOf(c)] == c ==> c in cs
  {
    hide HasReference, ReferenceOf;
    if c in cs {
      var i :| 0 <= i < |cs| && cs[i] == c;
    }
  }

  lemma ByReferenceKeyed(cs: seq<Json>)
    requires WellReferenced(cs)
    ensures KeyedByReference(ByReference(cs))
  {
    hide HasReference, ReferenceOf;
  }

  /** Maps keyed by reference are equal when they hold the same components. */
  lemma SameComponents(m: map<string, Json>, n: map<string, Json>)
    requires KeyedByReference(m) && KeyedByReference(n)
    requires forall r :: r in m ==> r in n && n[r] == m[r]
    requires forall r :: r in n ==> r in m
    ensures m == n
  {
  }

  lemma ReadsBackAt(m: map<string, Json>, r: string)
    requires KeyedByReference(m) && WellReferenced(Listed(m))
    ensures r in m ==> r in ByReference(Listed(m)) && ByReference(Listed(m))[r] == m[r]
    ensures r in ByReference(Listed(m)) ==> r in m
  {
    var l := Listed(m);
    ByReferenceKeyed(l);
    if r in m {
      assert HasReference(m[r]) && ReferenceOf(m[r]) == r;
      ListedMembers(m, m[r]);
      ByReferenceAt(l, m[r]);
    }
    if r in ByReference(l) {
      var c := ByReference(l)[r];
      assert HasReference(c) && ReferenceOf(c) == r;
      ByReferenceAt(l, c);
      ListedMembers(m, c);
    }
  }

  /** A listed map reads back as itself. */
  lemma ListedReadsBack(m: map<string, Json>)
    requires KeyedByReference(m)
    ensures WellReferenced(Listed(m)) && ByReference(Listed(m)) == m
  {
    ListedIsReferenced(m);
    var l := Listed(m);
    ByReferenceKeyed(l);
    hide Listed, HasReference, ReferenceOf, ByReference, WellReferenced, KeyedByReference;
    forall r ensures r in m ==> r in ByReference(l) && ByReference(l)[r] == m[r]
      ensures r in ByReference(l) ==> r in m
    {
      ReadsBackAt(m, r);
    }
    SameComponents(m, ByReference(l));
  }

  lemma ReferencesStep(front: seq<Json>, last: Json)
    requires AllReferenced(front) && HasReference(last)
    ensures AllReferenced(front + [last]) && References(front + [last]) == References(front) + {ReferenceOf(last)}
  {
    hide HasReference, ReferenceOf;
    var cs := front + [last];
    forall r | r in References(front) + {ReferenceOf(last)} ensures r in References(cs) {
      if r != ReferenceOf(last) {
        var i :| 0 <= i < |front| && ReferenceOf(front[i]) == r;
        assert cs[i] == front[i];
      } else {
        assert cs[|front|] == last;
      }
    }
  }

  lemma {:induction false} CountReferences(cs: seq<Json>)
    requires AllReferenced(cs)
    ensures |References(cs)| <= |cs|
    ensures |References(cs)| == |cs| <==> Distinct(cs)
  {
    if cs == [] {
      assert References(cs) == {};
    } else {
      var n := |cs| - 1;
      var front, last := cs[..n], cs[n];
      assert front + [last] == cs;
      hide HasReference, ReferenceOf, References, Distinct;
      CountReferences(front);
      ReferencesStep(front, last);
      DistinctAppend(front, last);
      if ReferenceOf(last) in References(front) {
        assert References(cs) == References(front);
      }
    }
  }

  lemma DistinctAppend(cs: seq<Json>, c: Json)
    requires AllReferenced(cs) && HasReference(c)
    ensures AllReferenced(cs + [c])
    ensures Distinct(cs + [c]) <==> Distinct(cs) && ReferenceOf(c) !in References(cs)
  {
    hide HasReference, ReferenceOf;
    var all := cs + [c];
    assert forall i :: 0 <= i < |cs| ==> all[i] == cs[i];
    if Distinct(all) {
      forall i, j | 0 <= i < j < |cs| ensures ReferenceOf(cs[i]) != ReferenceOf(cs[j]) {
        assert ReferenceOf(all[i]) != ReferenceOf(all[j]);
      }
      forall i | 0 <= i < |cs| ensures ReferenceOf(cs[i]) != ReferenceOf(c) {
        assert ReferenceOf(all[i]) != ReferenceOf(all[|cs|]);
      }
    }
  }

  /** The sort and the check that follows it. */
  method SortComponents(cs: seq<Json>) returns (r: Result<seq<Json>>)
    requires AllReferenced(cs)
    ensures r.Ok? <==> Distinct(cs)
    ensures r.Ok? ==> r.value == Listed(ByReference(cs))
    ensures r.Err? ==> r.code == COMPONENT_INVALID
  {
    hide HasReference, ReferenceOf;
    CountReferences(cs);
    if |References(cs)| != |cs| {
      return Err(COMPONENT_INVALID);
    }
    r := Ok(Listed(ByReference(cs)));
  }

  // ----- the merged components -----

  function MergedComponents(cs: seq<Json>, p: Project): (r: seq<Json>)
    requires AllReferenced(cs) && Projects(cs, p) != []
    ensures AllReferenced(r)
  {
    var projects := Projects(cs, p);
    RemainingReferenced(cs, projects);
    CanonicalReferenced(projects[0], p);
    Remaining(cs, projects) + [CanonicalComponent(projects[0], p)]
  }

  lemma {:induction false} RemainingReferenced(cs: seq<Json>, projects: seq<Json>)
    requires AllReferenced(cs)
    ensures AllReferenced(Remaining(cs, projects))
    ensures forall x :: x in Remaining(cs, projects) ==> x in cs
  {
    hide HasReference, NotAmong;
    if cs != [] {
      assert AllReferenced(cs[1..]);
      RemainingReferenced(cs[1..], projects);
    }
  }

  lemma {:induction false} RemainingDistinct(cs: seq<Json>, projects: seq<Json>)
    requires WellReferenced(cs)
    ensures WellReferenced(Remaining(cs, projects))
  {
    hide HasReference, NotAmong, ReferenceOf;
    RemainingReferenced(cs, projects);
    if cs != [] {
      var rest := cs[1..];
      assert WellReferenced(rest);
      RemainingDistinct(rest, projects);
      RemainingReferenced(rest, projects);
      var kept := Remaining(rest, projects);
      forall j | 0 <= j < |kept| ensures ReferenceOf(kept[j]) != ReferenceOf(cs[0]) {
        assert kept[j] in rest;
        var k :| 0 <= k < |rest| && rest[k] == kept[j];
        assert ReferenceOf(cs[0]) != ReferenceOf(cs[k + 1]);
      }
    }
  }

  lemma CanonicalReferenced(c: Json, p: Project)
    requires c.Obj?
    ensures HasReference(CanonicalComponent(c, p)) && ReferenceOf(CanonicalComponent(c, p)) == p.Reference()
  {
    assert BOM_REF != PURL by { assert |BOM_REF| == 7 && |PURL| == 4; }
    assert |p.Reference()| >= 2;
  }

  /** What is accepted of the components. */
  ghost predicate ComponentsFine(cs: seq<Json>, p: Project) {
    WellReferenced(cs) && Agree(Projects(cs, p), p) && Distinct(MergedComponents(cs, p))
  }

  /** No other component may already have the reference of the project. */
  ghost predicate ReferenceFree(cs: seq<Json>, p: Project)
    requires AllReferenced(cs)
  {
    forall c :: c in cs && !IsProject(c, p) ==> ReferenceOf(c) != p.Reference()
  }

  lemma DistinctIffReferenceFree(cs: seq<Json>, p: Project)
    requires WellReferenced(cs) && Projects(cs, p) != []
    ensures Distinct(MergedComponents(cs, p)) <==> ReferenceFree(cs, p)
  {
    var projects := Projects(cs, p);
    var others := Remaining(cs, projects);
    RemainingDistinct(cs, projects);
    RemainingAreTheOthers(cs, cs, p);
    CanonicalReferenced(projects[0], p);
    DistinctAppend(others, CanonicalComponent(projects[0], p));
    hide HasReference, ReferenceOf, IsProject, Remaining, CanonicalComponent, Distinct;
    if ReferenceFree(cs, p) {
      forall i | 0 <= i < |others| ensures ReferenceOf(others[i]) != p.Reference() {
        assert others[i] in cs;
      }
    } else {
      var c :| c in cs && !IsProject(c, p) && ReferenceOf(c) == p.Reference();
      assert c in others;
    }
  }

  /** The components of the result, by reference. */
  function Catalogue(cs: seq<Json>, p: Project): map<string, Json>
    requires ComponentsFine(cs, p)
  {
    ByReference(MergedComponents(cs, p))
  }

  /** Membership in the catalogue: the others as they are, and the one canonical component. */
  lemma CatalogueMembers(cs: seq<Json>, p: Project, c: Json)
    requires ComponentsFine(cs, p)
    ensures c in MergedComponents(cs, p) <==>
      (c in cs && !IsProject(c, p)) || c == CanonicalComponent(Projects(cs, p)[0], p)
  {
    RemainingAreTheOthers(cs, cs, p);
    hide HasReference, IsProject, Remaining, CanonicalComponent;
  }
}
