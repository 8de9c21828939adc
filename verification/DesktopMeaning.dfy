/** What the combined desktop SBOM (scripts/assemble_desktop_release.py:307-347, 446-570) accepts and what it is made
  * of, said of the nested components one by one, of their fields and of the strings in them.
  */
module DesktopMeaning {
  import opened CycloneDx
  import opened DesktopAggregate
  import opened DesktopSbom
  import opened Json
  import opened Wrappers

  // ----- nested components -----

  /** The component reached by following these places through the lists of nested components. */
  function At(c: Json, path: seq<nat>): Option<Json>
    decreases |path|
  {
    if path == [] then Some(c)
    else if c.Obj? && c.Get("components").Arr? && path[0] < |c.Get("components").items|
      then At(c.Get("components").items[path[0]], path[1..])
    else None
  }

  /** The component there has this reference. */
  ghost predicate Named(c: Json, path: seq<nat>, x: string) {
    At(c, path).Some? && At(c, path).value.Obj? && At(c, path).value.Get("bom-ref") == Str(x)
  }

  /** The same below a list of components. */
  ghost predicate NamedIn(cs: seq<Json>, path: seq<nat>, x: string) {
    path != [] && path[0] < |cs| && Named(cs[path[0]], path[1..], x)
  }

  ghost predicate ComponentGood(c: Json) {
    && c.Obj?
    && ("properties" in c.fields ==>
          && c.Get("properties").Arr?
          && forall item :: item in c.Get("properties").items ==>
            item.Obj? && item.Get("name") != Str("ancestryllm:target"))
    && ("bom-ref" in c.fields ==> c.Get("bom-ref").Str? && c.Get("bom-ref") != Str(""))
    && (c.Get("components").Arr? || c.Get("components").Null?)
  }

  ghost predicate TreeGood(c: Json) {
    forall path :: At(c, path).Some? ==> ComponentGood(At(c, path).value)
  }

  /** No reference is there twice. */
  ghost predicate NamesDiffer(cs: seq<Json>) {
    forall p, q, x :: NamedIn(cs, p, x) && NamedIn(cs, q, x) ==> p == q
  }

  lemma {:induction false} AllWellFormedIff(cs: seq<Json>)
    ensures AllWellFormed(cs) <==> forall i :: 0 <= i < |cs| ==> WellFormed(cs[i])
  {
    hide WellFormed;
    if cs != [] {
      AllWellFormedIff(cs[1..]);
      assert forall i :: 0 < i < |cs| ==> cs[i] == cs[1..][i - 1];
      assert forall i :: 0 <= i < |cs[1..]| ==> cs[1..][i] == cs[i + 1];
    }
  }

  ghost predicate ChildrenGood(c: Json) {
    c.Obj? && c.Get("components").Arr? ==> forall i :: 0 <= i < |c.Get("components").items| ==>
      WellFormed(c.Get("components").items[i])
  }

  lemma WellFormedIff(c: Json)
    ensures WellFormed(c) <==> ComponentGood(c) && ChildrenGood(c)
  {
    if c.Obj? {
      if HasChildren(c) {
        AllWellFormedIff(c.fields[COMPONENTS].items);
      }
      if PROPERTIES in c.fields && c.fields[PROPERTIES].Arr? {
        var items := c.fields[PROPERTIES].items;
        assert forall i :: 0 <= i < |items| ==> items[i] in items;
      }
    }
  }

  lemma ChildIsSmaller(c: Json, i: nat)
    requires c.Obj? && c.Get("components").Arr? && i < |c.Get("components").items|
    ensures c.Get("components").items[i] < c
  {
    assert c.fields["components"] < c;
    assert c.fields["components"].items[i] < c.fields["components"];
  }

  lemma Below(c: Json, i: nat, path: seq<nat>)
    requires HasChildrenAt(c) && i < |c.Get("components").items|
    ensures At(c, [i] + path) == At(c.Get("components").items[i], path)
  {
    assert ([i] + path)[1..] == path;
  }

  lemma {:induction false} TreeGoodIff(c: Json)
    ensures WellFormed(c) <==> TreeGood(c)
    decreases c
  {
    hide ComponentGood, WellFormed;
    WellFormedIff(c);
    assert At(c, []) == Some(c);
    if HasChildrenAt(c) {
      var items := c.Get("components").items;
      forall i | 0 <= i < |items| ensures WellFormed(items[i]) <==> TreeGood(items[i]) {
        ChildIsSmaller(c, i);
        TreeGoodIff(items[i]);
      }
      if TreeGood(c) {
        forall i, path | 0 <= i < |items| && At(items[i], path).Some? ensures ComponentGood(At(items[i], path).value) {
          Below(c, i, path);
          assert At(c, [i] + path).Some?;
        }
        assert forall i :: 0 <= i < |items| ==> TreeGood(items[i]);
      }
    }
    if ComponentGood(c) && ChildrenGood(c) {
      forall path | At(c, path).Some? ensures ComponentGood(At(c, path).value) {
        if path != [] {
          assert TreeGood(c.Get("components").items[path[0]]);
        }
      }
    }
  }

  // ----- references -----

  lemma {:induction false} TreeNames(c: Json, x: string)
    ensures x in TreeReferences(c) <==> exists path :: Named(c, path, x)
    decreases c, 1
  {
    NamedParts(c, x);
    if HasChildrenAt(c) {
      ForestNames(c.Get("components").items, c, x);
    }
    TreeParts(c);
    hide TreeReferences, Named;
    if c.Obj? && c.Get("bom-ref") == Str(x) {
      assert Named(c, [], x);
    }
    if HasChildrenAt(c) && x in ForestReferences(c.Get("components").items) {
      var path :| NamedIn(c.Get("components").items, path, x);
      assert Named(c, path, x);
    }
  }

  ghost predicate HasChildrenAt(c: Json) {
    c.Obj? && c.Get("components").Arr?
  }

  lemma NamedParts(c: Json, x: string)
    ensures forall path :: Named(c, path, x) <==>
      (path == [] && c.Obj? && c.Get("bom-ref") == Str(x))
      || (HasChildrenAt(c) && NamedIn(c.Get("components").items, path, x))
  {
  }

  lemma TreeParts(c: Json)
    ensures TreeReferences(c) ==
      (if c.Obj? && c.Get("bom-ref").Str? then [c.Get("bom-ref").s] else [])
      + (if HasChildrenAt(c) then ForestReferences(c.Get("components").items) else [])
  {
  }

  lemma {:induction false} ForestNames(cs: seq<Json>, whole: Json, x: string)
    requires forall i :: 0 <= i < |cs| ==> cs[i] < whole
    ensures x in ForestReferences(cs) <==> exists path :: NamedIn(cs, path, x)
    decreases whole, 0, |cs|
  {
    if cs != [] {
      TreeNames(cs[0], x);
      assert forall i :: 0 <= i < |cs[1..]| ==> cs[1..][i] == cs[i + 1];
      ForestNames(cs[1..], whole, x);
      NamedInParts(cs);
      hide TreeReferences, Named, NamedIn;
      if path :| Named(cs[0], path, x) {
        assert ([0] + path)[1..] == path;
        assert NamedIn(cs, [0] + path, x);
      }
      if path :| NamedIn(cs[1..], path, x) {
        NamedInIsNotEmpty(cs[1..], path, x);
        assert Shifted([path[0] + 1] + path[1..]) == path;
        assert NamedIn(cs, [path[0] + 1] + path[1..], x);
      }
    }
  }

  function Shifted(path: seq<nat>): seq<nat>
    requires path != [] && path[0] > 0
  {
    [(path[0] - 1) as nat] + path[1..]
  }

  lemma NamedInIsNotEmpty(cs: seq<Json>, path: seq<nat>, x: string)
    requires NamedIn(cs, path, x)
    ensures path != []
  {
  }

  lemma NamedInParts(cs: seq<Json>)
    requires cs != []
    ensures forall path, x :: NamedIn(cs, path, x) <==>
      path != [] && if path[0] == 0 then Named(cs[0], path[1..], x) else NamedIn(cs[1..], Shifted(path), x)
  {
    hide Named;
    forall path, x | path != [] && path[0] > 0
      ensures NamedIn(cs, path, x) <==> NamedIn(cs[1..], Shifted(path), x)
    {
      assert Shifted(path)[1..] == path[1..];
    }
  }

  ghost predicate TreeNamesDiffer(c: Json) {
    forall p, q, x :: Named(c, p, x) && Named(c, q, x) ==> p == q
  }

  lemma {:induction false} TreeDistinct(c: Json)
    ensures NoDuplicates(TreeReferences(c)) <==> TreeNamesDiffer(c)
    decreases c, 1
  {
    TreeParts(c);
    if HasChildrenAt(c) {
      var items := c.Get("components").items;
      ForestDistinct(items, c);
      var own := if c.Get("bom-ref").Str? then [c.Get("bom-ref").s] else [];
      NoDuplicatesAppend(own, ForestReferences(items));
      DisjointIff(own, ForestReferences(items));
      forall x ensures x in ForestReferences(items) <==> exists path :: NamedIn(items, path, x) {
        ForestNames(items, c, x);
      }
      OwnDiffers(c, own, ForestReferences(items));
    } else {
      forall x {
        NamedParts(c, x);
      }
    }
  }

  lemma DisjointIff(a: seq<string>, b: seq<string>)
    ensures Names(a) !! Names(b) <==> forall x :: x in a ==> x !in b
  {
    if Names(a) !! Names(b) {
      forall x | x in a ensures x !in b {
        assert x in Names(a) && x !in Names(b);
      }
    }
  }

  /** The names of a component differ when those below it do and its own is not among them. */
  lemma OwnDiffers(c: Json, own: seq<string>, below: seq<string>)
    requires HasChildrenAt(c) && own == (if c.Get("bom-ref").Str? then [c.Get("bom-ref").s] else [])
    requires forall x :: x in below <==> exists path :: NamedIn(c.Get("components").items, path, x)
    ensures TreeNamesDiffer(c) <==> NamesDiffer(c.Get("components").items) && forall x :: x in own ==> x !in below
  {
    var items := c.Get("components").items;
    forall x ensures forall path :: Named(c, path, x) <==>
      (path == [] && c.Get("bom-ref") == Str(x)) || NamedIn(items, path, x) {
      NamedParts(c, x);
    }
    forall path, x | NamedIn(items, path, x) ensures path != [] && Named(c, path, x) {
    }
    hide Named, NamedIn;
    assert forall x :: x in own ==> Named(c, [], x);
    if NamesDiffer(items) && forall x :: x in own ==> x !in below {
      forall p, q, x | Named(c, p, x) && Named(c, q, x) ensures p == q {
        assert p == [] <==> x in own;
        assert q == [] <==> x in own;
      }
    }
  }

  lemma {:induction false} ForestDistinct(cs: seq<Json>, whole: Json)
    requires forall i :: 0 <= i < |cs| ==> cs[i] < whole
    ensures NoDuplicates(ForestReferences(cs)) <==> NamesDiffer(cs)
    decreases whole, 0, |cs|
  {
    if cs != [] {
      var first, rest := TreeReferences(cs[0]), ForestReferences(cs[1..]);
      TreeDistinct(cs[0]);
      assert forall i :: 0 <= i < |cs[1..]| ==> cs[1..][i] == cs[i + 1];
      ForestDistinct(cs[1..], whole);
      NoDuplicatesAppend(first, rest);
      DisjointIff(first, rest);
      forall x
        ensures x in first <==> exists path :: Named(cs[0], path, x)
        ensures x in rest <==> exists path :: NamedIn(cs[1..], path, x)
      {
        TreeNames(cs[0], x);
        ForestNames(cs[1..], whole, x);
      }
      ForestDiffers(cs, first, rest);
    }
  }

  function Up(path: seq<nat>): seq<nat>
    requires path != []
  {
    [path[0] + 1] + path[1..]
  }

  lemma Placed(cs: seq<Json>)
    requires cs != []
    ensures forall p, x :: Named(cs[0], p, x) ==> NamedIn(cs, [0] + p, x)
    ensures forall q, x :: NamedIn(cs[1..], q, x) ==> q != [] && NamedIn(cs, Up(q), x)
  {
    hide Named;
    forall p: seq<nat>, x ensures NamedIn(cs, [0] + p, x) <==> Named(cs[0], p, x) {
      assert ([0] + p)[1..] == p;
    }
    forall q: seq<nat>, x | NamedIn(cs[1..], q, x) ensures NamedIn(cs, Up(q), x) {
      assert Up(q)[1..] == q[1..];
    }
  }

  lemma PartsDiffer(cs: seq<Json>)
    requires cs != [] && NamesDiffer(cs)
    ensures TreeNamesDiffer(cs[0]) && NamesDiffer(cs[1..])
  {
    hide Named, NamedIn;
    Placed(cs);
    forall p, q, x | Named(cs[0], p, x) && Named(cs[0], q, x) ensures p == q {
      assert ([0] + p)[1..] == p && ([0] + q)[1..] == q;
    }
    forall p, q, x | NamedIn(cs[1..], p, x) && NamedIn(cs[1..], q, x) ensures p == q {
      assert Up(p)[0] == p[0] + 1 && Up(p)[1..] == p[1..] && Up(q)[0] == q[0] + 1 && Up(q)[1..] == q[1..];
      assert p == [p[0]] + p[1..] && q == [q[0]] + q[1..];
    }
  }

  lemma NotInBoth(cs: seq<Json>, p: seq<nat>, x: string)
    requires cs != [] && NamesDiffer(cs) && Named(cs[0], p, x)
    ensures forall q :: !NamedIn(cs[1..], q, x)
  {
    hide Named, NamedIn;
    Placed(cs);
    assert ([0] + p)[0] == 0 && NamedIn(cs, [0] + p, x);
    assert forall q: seq<nat> :: q != [] ==> Up(q)[0] == q[0] + 1;
  }

  lemma JoinDiffers(cs: seq<Json>, p: seq<nat>, q: seq<nat>, x: string)
    requires cs != [] && TreeNamesDiffer(cs[0]) && NamesDiffer(cs[1..]) && NamedIn(cs, p, x) && NamedIn(cs, q, x)
    requires forall p', q' :: Named(cs[0], p', x) ==> !NamedIn(cs[1..], q', x)
    ensures p == q
  {
    NamedInParts(cs);
    hide Named, NamedIn;
    assert p[0] == 0 <==> q[0] == 0;
    assert p == [p[0]] + p[1..] && q == [q[0]] + q[1..];
    if p[0] != 0 {
      assert Shifted(p) == Shifted(q);
      assert Shifted(p)[0] == p[0] - 1 && Shifted(p)[1..] == p[1..];
      assert Shifted(q)[0] == q[0] - 1 && Shifted(q)[1..] == q[1..];
    }
  }

  /** The names of a list differ when those of the first and of the rest do, and no name is in both. */
  lemma ForestDiffers(cs: seq<Json>, first: seq<string>, rest: seq<string>)
    requires cs != []
    requires forall x :: x in first <==> exists path :: Named(cs[0], path, x)
    requires forall x :: x in rest <==> exists path :: NamedIn(cs[1..], path, x)
    ensures NamesDiffer(cs) <==> TreeNamesDiffer(cs[0]) && NamesDiffer(cs[1..]) && forall x :: x in first ==> x !in rest
  {
    hide Named, NamedIn, TreeNamesDiffer;
    if NamesDiffer(cs) {
      PartsDiffer(cs);
      forall x | x in first ensures x !in rest {
        var p :| Named(cs[0], p, x);
        NotInBoth(cs, p, x);
      }
    }
    if TreeNamesDiffer(cs[0]) && NamesDiffer(cs[1..]) && forall x :: x in first ==> x !in rest {
      forall p, q, x | NamedIn(cs, p, x) && NamedIn(cs, q, x) ensures p == q {
        assert x in first ==> x !in rest;
        JoinDiffers(cs, p, q, x);
      }
    }
  }

  // ----- copies -----

  function TargetName(target: string, x: string): string {
    "urn:ancestryllm:target:" + target + ":" + x
  }

  /** d is c for the target, apart from the nested components: one more property, and the target in the reference. */
  ghost predicate IsCopyOf(c: Json, d: Json, target: string) {
    && c.Obj? && d.Obj?
    && (forall k :: k in d.fields <==> k in c.fields || k == "properties")
    && (forall k :: k in c.fields && k != "properties" && k != "bom-ref" && k != "components" ==>
          d.fields[k] == c.fields[k])
    && d.Get("properties") == Arr((if c.Get("properties").Arr? then c.Get("properties").items else []) + [
         Obj(map["name" := Str("ancestryllm:target"), "value" := Str(target)])])
    && ("bom-ref" in c.fields ==> exists x ::
          c.Get("bom-ref") == Str(x) && d.Get("bom-ref") == Str(TargetName(target, x)))
    && (if c.Get("components").Arr?
        then d.Get("components").Arr? && |d.Get("components").items| == |c.Get("components").items|
        else d.Get("components") == c.Get("components"))
  }

  /** Everything nested in d is what is nested in c at the same place, for the target. */
  ghost predicate IsTreeCopy(c: Json, d: Json, target: string) {
    forall path ::
      (At(c, path).Some? <==> At(d, path).Some?)
      && (At(c, path).Some? ==> IsCopyOf(At(c, path).value, At(d, path).value, target))
  }

  ghost predicate AreTreeCopies(cs: seq<Json>, ds: seq<Json>, target: string) {
    |ds| == |cs| && forall i :: 0 <= i < |cs| ==> IsTreeCopy(cs[i], ds[i], target)
  }

  lemma {:induction false} CopiedAllAt(cs: seq<Json>, target: string, i: nat)
    requires AllWellFormed(cs) && i < |cs|
    ensures WellFormed(cs[i]) && CopiedAll(cs, target)[i] == Copied(cs[i], target)
  {
    hide WellFormed, Copied;
    if i > 0 {
      CopiedAllAt(cs[1..], target, i - 1);
    }
  }

  lemma CopiedTop(c: Json, target: string)
    requires WellFormed(c)
    ensures IsCopyOf(c, Copied(c, target), target)
    ensures HasChildrenAt(c) ==>
      && AllWellFormed(c.Get("components").items)
      && Copied(c, target).Get("components") == Arr(CopiedAll(c.Get("components").items, target))
  {
    KeysDiffer();
    if BOM_REF in c.fields {
      var x := c.fields[BOM_REF].s;
      assert c.Get("bom-ref") == Str(x) && TargetName(target, x) == TargetRef(target, x);
    }
  }

  lemma {:induction false} CopiedIsTreeCopy(c: Json, target: string)
    requires WellFormed(c)
    ensures IsTreeCopy(c, Copied(c, target), target)
    decreases c
  {
    CopiedTop(c, target);
    hide WellFormed, Copied, IsCopyOf, CopiedAll, AllWellFormed;
    var d := Copied(c, target);
    forall path
      ensures At(c, path).Some? <==> At(d, path).Some?
      ensures At(c, path).Some? ==> IsCopyOf(At(c, path).value, At(d, path).value, target)
    {
      if path != [] && HasChildrenAt(c) && path[0] < |c.Get("components").items| {
        var items := c.Get("components").items;
        CopiedAllAt(items, target, path[0]);
        ChildIsSmaller(c, path[0]);
        CopiedIsTreeCopy(items[path[0]], target);
        assert At(d, path) == At(Copied(items[path[0]], target), path[1..]);
      } else if path != [] {
        CopyHasNoMore(c, d, target);
      }
    }
  }

  lemma CopyHasNoMore(c: Json, d: Json, target: string)
    requires IsCopyOf(c, d, target)
    ensures HasChildrenAt(d) <==> HasChildrenAt(c)
    ensures HasChildrenAt(c) ==> |d.Get("components").items| == |c.Get("components").items|
  {
  }

  lemma TreesCopied(cs: seq<Json>, target: string)
    requires AllWellFormed(cs)
    ensures AreTreeCopies(cs, CopiedAll(cs, target), target)
  {
    hide IsTreeCopy, CopiedAll, AllWellFormed;
    forall i | 0 <= i < |cs| ensures IsTreeCopy(cs[i], CopiedAll(cs, target)[i], target) {
      CopiedAllAt(cs, target, i);
      CopiedIsTreeCopy(cs[i], target);
    }
  }

  // ----- dependency nodes -----

  ghost predicate ListGood(d: Json, key: string) {
    d.Obj? && (key in d.fields ==> d.Get(key).Arr? && forall e :: e in d.Get(key).items ==> e.Str? && e != Str(""))
  }

  ghost predicate IsNode(d: Json) {
    d.Obj? && d.Get("ref").Str? && d.Get("ref") != Str("") && ListGood(d, "dependsOn") && ListGood(d, "provides")
  }

  /** The strings under the key, of which there are none when it is absent. */
  function ItemsAt(d: Json, key: string): seq<Json> {
    if d.Obj? && d.Get(key).Arr? then d.Get(key).items else []
  }

  /** The node has this reference, or names it. */
  ghost predicate Mentions(d: Json, x: string) {
    d.Obj? && (d.Get("ref") == Str(x) || Str(x) in ItemsAt(d, "dependsOn") || Str(x) in ItemsAt(d, "provides"))
  }

  /** Nodes with different references that mention only components. */
  ghost predicate GraphGood(ds: seq<Json>, trees: seq<Json>) {
    && (forall i :: 0 <= i < |ds| ==> IsNode(ds[i]))
    && (forall i, j :: 0 <= i < j < |ds| ==> ds[i].Get("ref") != ds[j].Get("ref"))
    && (forall d, x :: d in ds && Mentions(d, x) ==> exists path :: NamedIn(trees, path, x))
  }

  lemma IsNodeIff(d: Json)
    ensures IsNode(d) <==> GoodNode(d)
    ensures IsNode(d) ==> d.Get("ref") == Str(RefOf(d))
  {
  }

  lemma RelatedIs(d: Json, f: Field)
    requires GoodNode(d)
    ensures |ItemsAt(d, Key(f))| == |Related(d, f)|
    ensures forall i :: 0 <= i < |Related(d, f)| ==> ItemsAt(d, Key(f))[i] == Str(Related(d, f)[i])
    ensures forall x :: x in Related(d, f) <==> Str(x) in ItemsAt(d, Key(f))
  {
    var items, r := ItemsAt(d, Key(f)), Related(d, f);
    assert EdgeList(d, Key(f)).Arr? && EdgeList(d, Key(f)).items == items;
    forall x | Str(x) in items ensures x in r {
      var i :| 0 <= i < |items| && items[i] == Str(x);
      assert r[i] == x;
    }
  }

  lemma InsideIff(d: Json, names: set<string>)
    requires GoodNode(d)
    ensures Inside(d, names) <==> forall x :: Mentions(d, x) ==> x in names
  {
    RelatedIs(d, DependsOn);
    RelatedIs(d, Provides);
    IsNodeIff(d);
    hide GoodNode, Related, RefOf, IsNode, ItemsAt;
    if forall x :: Mentions(d, x) ==> x in names {
      assert Mentions(d, RefOf(d));
      assert forall x :: x in Related(d, DependsOn) || x in Related(d, Provides) ==> Mentions(d, x);
    }
  }

  lemma RefsDiffer(ds: seq<Json>)
    requires AllGood(ds)
    ensures NoDuplicates(Refs(ds)) <==> forall i, j :: 0 <= i < j < |ds| ==> ds[i].Get("ref") != ds[j].Get("ref")
  {
    forall i | 0 <= i < |ds| ensures ds[i].Obj? && ds[i].Get("ref") == Str(Refs(ds)[i]) {
      IsNodeIff(ds[i]);
    }
    hide GoodNode, RefOf;
    forall i, j | 0 <= i < j < |ds| ensures Refs(ds)[i] != Refs(ds)[j] <==> ds[i].Get("ref") != ds[j].Get("ref") {
    }
  }

  lemma GraphGoodIff(ds: seq<Json>, trees: seq<Json>, names: set<string>)
    requires forall x :: x in names <==> exists path :: NamedIn(trees, path, x)
    ensures GraphGood(ds, trees) <==> DependenciesFine(ds, names)
  {
    hide NamedIn;
    forall i | 0 <= i < |ds| ensures IsNode(ds[i]) <==> GoodNode(ds[i]) {
      IsNodeIff(ds[i]);
    }
    hide GoodNode, IsNode, Inside, Mentions, Refs, NoDuplicates;
    if AllGood(ds) {
      RefsDiffer(ds);
      forall i | 0 <= i < |ds| ensures Inside(ds[i], names) <==> forall x :: Mentions(ds[i], x) ==> x in names {
        InsideIff(ds[i], names);
      }
      assert forall i :: 0 <= i < |ds| ==> ds[i] in ds;
    }
  }

  /** The names in the list, with the target before each. */
  ghost predicate AreTargetNames(from: seq<Json>, to: Json, target: string) {
    && to.Arr? && |to.items| == |from|
    && forall i, x :: 0 <= i < |from| && from[i] == Str(x) ==> to.items[i] == Str(TargetName(target, x))
  }

  /** e is the node d for the target; both lists are there. */
  ghost predicate IsNodeCopy(d: Json, e: Json, target: string) {
    && d.Obj? && e.Obj?
    && (forall k :: k in e.fields <==> k in d.fields || k == "dependsOn" || k == "provides")
    && (forall k :: k in d.fields && k != "ref" && k != "dependsOn" && k != "provides" ==> e.fields[k] == d.fields[k])
    && (exists x :: d.Get("ref") == Str(x) && e.Get("ref") == Str(TargetName(target, x)))
    && AreTargetNames(ItemsAt(d, "dependsOn"), e.Get("dependsOn"), target)
    && AreTargetNames(ItemsAt(d, "provides"), e.Get("provides"), target)
  }

  lemma NamesCopied(d: Json, f: Field, target: string)
    requires GoodNode(d)
    ensures AreTargetNames(ItemsAt(d, Key(f)), Arr(TargetNames(target, Related(d, f))), target)
  {
    RelatedIs(d, f);
    hide GoodNode, Related;
  }

  lemma NodeCopied(d: Json, target: string)
    requires GoodNode(d)
    ensures IsNodeCopy(d, CopiedNode(d, target), target)
  {
    IsNodeIff(d);
    NodeKeysDiffer();
    NamesCopied(d, DependsOn, target);
    NamesCopied(d, Provides, target);
    var e := CopiedNode(d, target);
    assert d.Get("ref") == Str(RefOf(d)) && e.Get("ref") == Str(TargetName(target, RefOf(d)));
    assert e.Get("dependsOn") == Arr(TargetNames(target, Related(d, DependsOn)));
    assert e.Get("provides") == Arr(TargetNames(target, Related(d, Provides)));
    hide AreTargetNames, GoodNode, IsNode, RefOf, Related;
  }

  ghost predicate AreNodeCopies(ds: seq<Json>, es: seq<Json>, target: string) {
    |es| == |ds| && forall i :: 0 <= i < |ds| ==> IsNodeCopy(ds[i], es[i], target)
  }

  lemma NodesCopied(ds: seq<Json>, target: string)
    requires AllGood(ds)
    ensures AreNodeCopies(ds, CopiedNodes(ds, target), target)
  {
    hide GoodNode, CopiedNode, IsNodeCopy;
    forall i | 0 <= i < |ds| ensures IsNodeCopy(ds[i], CopiedNodes(ds, target)[i], target) {
      NodeCopied(ds[i], target);
    }
  }

  // ----- the SBOM of one target -----

  ghost predicate IsRoot(payload: Json, root: Json) {
    payload.Obj? && payload.Get("metadata").Obj? && payload.Get("metadata").Get("component") == root && root.Obj?
  }

  /** The root component, and then those of the list. */
  function TreesOf(payload: Json, root: Json): seq<Json> {
    [root] + ItemsAt(payload, "components")
  }

  ghost predicate ListOrAbsent(payload: Json, key: string) {
    payload.Obj? && (key in payload.fields ==> payload.Get(key).Arr?)
  }

  /** What is demanded of the SBOM of a target. */
  ghost predicate SbomGood(payload: Json, version: string) {
    && payload.Obj? && payload.Get("bomFormat") == Str("CycloneDX")
    && ListOrAbsent(payload, "components") && ListOrAbsent(payload, "dependencies")
    && exists root ::
      && IsRoot(payload, root) && root.Get("version") == Str(version) && "bom-ref" in root.fields
      && (forall i :: 0 <= i < |TreesOf(payload, root)| ==> TreeGood(TreesOf(payload, root)[i]))
      && NamesDiffer(TreesOf(payload, root))
      && GraphGood(ItemsAt(payload, "dependencies"), TreesOf(payload, root))
  }

  lemma TreesIff(payload: Json)
    requires HasRoot(payload)
    ensures
      var trees := Trees(payload);
      && (AllWellFormed(trees) <==> forall i :: 0 <= i < |trees| ==> TreeGood(trees[i]))
      && (NoDuplicates(ForestReferences(trees)) <==> NamesDiffer(trees))
      && forall x :: x in NamesOf(payload) <==> exists path :: NamedIn(trees, path, x)
  {
    var trees := Trees(payload);
    TreesInside(payload);
    assert forall i :: 0 <= i < |trees| ==> trees[i] in trees;
    AllWellFormedIff(trees);
    forall i | 0 <= i < |trees| ensures WellFormed(trees[i]) <==> TreeGood(trees[i]) {
      TreeGoodIff(trees[i]);
    }
    ForestDistinct(trees, payload);
    forall x ensures x in NamesOf(payload) <==> exists path :: NamedIn(trees, path, x) {
      ForestNames(trees, payload, x);
    }
  }

  lemma ObjectsIff(payload: Json, key: string)
    requires payload.Obj? && forall x :: x in ItemsAt(payload, key) ==> x.Obj?
    ensures ObjectsOrAbsent(payload, key) <==> ListOrAbsent(payload, key)
  {
    assert forall i :: 0 <= i < |ItemsAt(payload, key)| ==> ItemsAt(payload, key)[i] in ItemsAt(payload, key);
  }

  lemma ItemsAreObjects(payload: Json)
    requires HasRoot(payload)
    ensures AllWellFormed(Trees(payload)) ==> forall x :: x in ItemsAt(payload, "components") ==> x.Obj?
    ensures AllGood(ItemsAt(payload, "dependencies")) ==> forall x :: x in ItemsAt(payload, "dependencies") ==> x.Obj?
  {
    var trees, items := Trees(payload), ItemsAt(payload, "components");
    if AllWellFormed(trees) {
      AllWellFormedIff(trees);
      forall x | x in items ensures x.Obj? {
        var i :| 0 <= i < |items| && items[i] == x;
        assert trees[i + 1] == x;
      }
    }
  }

  /** Exactly such an SBOM is accepted for a target. */
  lemma SbomIff(payload: Json, version: string)
    ensures SbomFine(payload, version) <==> SbomGood(payload, version)
  {
    hide AllWellFormed, NoDuplicates, ForestReferences, TreeGood, NamesDiffer, GraphGood, DependenciesFine, Names,
      AllGood,
      NamedIn, WellFormed, Objects;
    if payload.Obj? && HasRoot(payload) {
      var root, trees := Root(payload), Trees(payload);
      assert IsRoot(payload, root) && forall r :: IsRoot(payload, r) ==> r == root;
      assert trees == TreesOf(payload, root);
      TreesIff(payload);
      GraphGoodIff(ListOf(payload, DEPENDENCIES), trees, NamesOf(payload));
      ItemsAreObjects(payload);
      FineAreGood(payload);
      if AllWellFormed(trees) {
        ObjectsIff(payload, "components");
        if GraphGood(ItemsAt(payload, "dependencies"), trees) {
          ObjectsIff(payload, "dependencies");
        }
      }
    }
  }

  lemma FineAreGood(payload: Json)
    requires HasRoot(payload)
    ensures DependenciesFine(ListOf(payload, DEPENDENCIES), NamesOf(payload)) ==>
      AllGood(ItemsAt(payload, "dependencies"))
  {
  }

  // ----- all targets -----

  /** The four targets, each once. */
  ghost predicate AllTargets(inputs: seq<Input>) {
    && |inputs| == 4
    && (exists i :: 0 <= i < |inputs| && inputs[i].target == "darwin-arm64")
    && (exists i :: 0 <= i < |inputs| && inputs[i].target == "darwin-x64")
    && (exists i :: 0 <= i < |inputs| && inputs[i].target == "win32-arm64")
    && (exists i :: 0 <= i < |inputs| && inputs[i].target == "linux-x64")
  }

  lemma FourTargets()
    ensures |TARGETS| == 4
    ensures "darwin-arm64" != "darwin-x64" && "darwin-arm64" != "win32-arm64" && "darwin-arm64" != "linux-x64"
    ensures "darwin-x64" != "win32-arm64" && "darwin-x64" != "linux-x64" && "win32-arm64" != "linux-x64"
  {
    var a, b, c, d := "darwin-arm64", "darwin-x64", "win32-arm64", "linux-x64";
    assert |a| == 12 && |b| == 10 && |c| == 11 && |d| == 9;
    assert TARGETS == {a, b, c, d};
  }

  lemma Covered(inputs: seq<Input>, a: nat, b: nat, c: nat, d: nat)
    requires |inputs| == 4 && a < 4 && b < 4 && c < 4 && d < 4
    requires inputs[a].target == "darwin-arm64" && inputs[b].target == "darwin-x64"
    requires inputs[c].target == "win32-arm64" && inputs[d].target == "linux-x64"
    ensures Matrix(inputs)
  {
    FourTargets();
    assert a != b && a != c && a != d && b != c && b != d && c != d;
    forall i: nat | i < 4 ensures inputs[i].target in TARGETS && (i == a || i == b || i == c || i == d) {
    }
    forall i: nat, j: nat | i < j < 4 ensures inputs[i].target != inputs[j].target {
    }
    assert {inputs[a].target, inputs[b].target, inputs[c].target, inputs[d].target} == TargetsOf(inputs);
  }

  lemma AllTargetsIff(inputs: seq<Input>)
    ensures Matrix(inputs) <==> AllTargets(inputs)
  {
    FourTargets();
    if Matrix(inputs) {
      forall t | t in TARGETS ensures exists i :: 0 <= i < |inputs| && inputs[i].target == t {
        assert t in TargetsOf(inputs);
      }
    }
    if AllTargets(inputs) {
      var a :| 0 <= a < |inputs| && inputs[a].target == "darwin-arm64";
      var b :| 0 <= b < |inputs| && inputs[b].target == "darwin-x64";
      var c :| 0 <= c < |inputs| && inputs[c].target == "win32-arm64";
      var d :| 0 <= d < |inputs| && inputs[d].target == "linux-x64";
      Covered(inputs, a, b, c, d);
    }
  }

  /** Exactly the four targets with good SBOMs are combined. */
  lemma CombinedIff(inputs: seq<Input>, version: string)
    ensures Matrix(inputs) && AllFine(inputs, version) <==>
      AllTargets(inputs) && forall i :: 0 <= i < |inputs| ==> SbomGood(inputs[i].payload, version)
  {
    hide Matrix, AllTargets, SbomFine, SbomGood;
    AllTargetsIff(inputs);
    forall i | 0 <= i < |inputs| ensures SbomFine(inputs[i].payload, version) <==>
      SbomGood(inputs[i].payload, version) {
      SbomIff(inputs[i].payload, version);
    }
  }

  /** One list after the other. */
  function Joined(lists: seq<seq<Json>>): seq<Json> {
    if lists == [] then [] else Joined(lists[..|lists| - 1]) + lists[|lists| - 1]
  }

  /** The components, nodes and root that a target adds. */
  ghost predicate IsPart(input: Input, components: seq<Json>, nodes: seq<Json>, name: string) {
    exists root, x ::
      && IsRoot(input.payload, root) && root.Get("bom-ref") == Str(x) && name == TargetName(input.target, x)
      && AreTreeCopies(TreesOf(input.payload, root), components, input.target)
      && AreNodeCopies(ItemsAt(input.payload, "dependencies"), nodes, input.target)
  }

  ghost predicate AreParts(inputs: seq<Input>, components: seq<seq<Json>>, nodes: seq<seq<Json>>, roots: seq<string>) {
    && |components| == |inputs| && |nodes| == |inputs| && |roots| == |inputs|
    && forall k :: 0 <= k < |inputs| ==> IsPart(inputs[k], components[k], nodes[k], roots[k])
  }

  lemma PartIs(input: Input, version: string)
    requires SbomFine(input.payload, version)
    ensures
      var part := PartOf(input, version, {});
      IsPart(input, part.components, part.nodes.dependencies, part.root)
  {
    FineParts(input.payload, version);
    hide AllWellFormed, NoDuplicates, ForestReferences, AreTreeCopies, AreNodeCopies, Names, AllGood, CopiedAll,
      CopiedNodes,
      TargetRefs, Refs, TargetRef;
    var p, t := input.payload, input.target;
    TreesCopied(Trees(p), t);
    NodesCopied(ListOf(p, DEPENDENCIES), t);
    NamesAgree(t, RootName(p));
    assert IsRoot(p, Root(p)) && Root(p).Get("bom-ref") == Str(RootName(p));
    assert Trees(p) == TreesOf(p, Root(p));
  }

  lemma NamesAgree(target: string, x: string)
    ensures TargetRef(target, x) == TargetName(target, x)
  {
  }

  /** The combined SBOM is made of a part for each target, in the order of the inputs. */
  lemma {:induction false} CombinedIs(inputs: seq<Input>, version: string)
    returns (components: seq<seq<Json>>, nodes: seq<seq<Json>>)
    requires AllFine(inputs, version)
    ensures AreParts(inputs, components, nodes, CombinedOf(inputs, version).roots)
    ensures CombinedOf(inputs, version).components == Joined(components)
    ensures CombinedOf(inputs, version).dependencies == Joined(nodes)
    decreases |inputs|
  {
    hide SbomFine, PartOf, IsPart;
    components, nodes := [], [];
    if inputs != [] {
      var n := |inputs| - 1;
      assert SbomFine(inputs[n].payload, version) && AllFine(inputs[..n], version);
      var cs, ns := CombinedIs(inputs[..n], version);
      var part := PartOf(inputs[n], version, {});
      PartIs(inputs[n], version);
      components, nodes := cs + [part.components], ns + [part.nodes.dependencies];
      assert components[..n] == cs && nodes[..n] == ns;
    }
  }
}
