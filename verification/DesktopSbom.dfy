/** The combined desktop SBOM (scripts/assemble_desktop_release.py:307-347, 483-560): one component tree and one
  * dependency graph for each target, with the name of the target before every reference.
  */
module DesktopSbom {
  import opened CycloneDx
  import opened Json
  import opened Wrappers

  const PROPERTIES := "properties"
  const MARKER := "ancestryllm:target"

  // Messages are abbreviated to what tells them apart.
  const MALFORMED := "malformed"
  const DUPLICATE := "duplicate bom-ref values"

  /** `_target_ref` for a usable reference */
  function TargetRef(target: string, reference: string): string {
    "urn:ancestryllm:target:" + target + ":" + reference
  }

  // ----- trees -----

  predicate Objects(v: Json) {
    v.Arr? && forall i :: 0 <= i < |v.items| ==> v.items[i].Obj?
  }

  predicate PropertiesFine(c: Json)
    requires c.Obj?
  {
    PROPERTIES in c.fields ==>
      Objects(c.fields[PROPERTIES]) && forall i :: 0 <= i < |c.fields[PROPERTIES].items| ==>
        c.fields[PROPERTIES].items[i].Get("name") != Str(MARKER)
  }

  predicate ReferenceFine(c: Json)
    requires c.Obj?
  {
    BOM_REF in c.fields ==> IsName(c.fields[BOM_REF])
  }

  predicate HasChildren(c: Json)
    requires c.Obj?
  {
    COMPONENTS in c.fields && c.fields[COMPONENTS].Arr?
  }

  predicate ChildrenFine(c: Json)
    requires c.Obj?
  {
    COMPONENTS in c.fields && !c.fields[COMPONENTS].Null? ==> Objects(c.fields[COMPONENTS])
  }

  /** A component, and all nested ones, with usable references and properties. */
  predicate WellFormed(c: Json)
    decreases c
  {
    && c.Obj? && PropertiesFine(c) && ReferenceFine(c) && ChildrenFine(c)
    && (HasChildren(c) ==> AllWellFormed(c.fields[COMPONENTS].items))
  }

  predicate AllWellFormed(cs: seq<Json>)
    decreases cs
  {
    cs == [] || (WellFormed(cs[0]) && AllWellFormed(cs[1..]))
  }

  function OwnReference(c: Json): seq<string>
    requires c.Obj?
  {
    if BOM_REF in c.fields && c.fields[BOM_REF].Str? then [c.fields[BOM_REF].s] else []
  }

  /** All references of a component and its nested ones, in order and with repetitions. */
  function TreeReferences(c: Json): seq<string>
    decreases c
  {
    if !c.Obj? then []
    else OwnReference(c) + (if HasChildren(c) then ForestReferences(c.fields[COMPONENTS].items) else [])
  }

  function ForestReferences(cs: seq<Json>): seq<string>
    decreases cs
  {
    if cs == [] then [] else TreeReferences(cs[0]) + ForestReferences(cs[1..])
  }

  ghost predicate NoDuplicates(s: seq<string>) {
    forall i, j :: 0 <= i < j < |s| ==> s[i] != s[j]
  }

  function Names(s: seq<string>): set<string> {
    set x | x in s
  }

  lemma NoDuplicatesAppend(a: seq<string>, b: seq<string>)
    ensures NoDuplicates(a + b) <==> NoDuplicates(a) && NoDuplicates(b) && Names(a) !! Names(b)
  {
    var c := a + b;
    assert forall i :: 0 <= i < |a| ==> c[i] == a[i];
    assert forall i :: 0 <= i < |b| ==> c[|a| + i] == b[i];
    if NoDuplicates(c) {
      forall i, j | 0 <= i < |a| && 0 <= j < |b| ensures a[i] != b[j] {
        assert c[i] != c[|a| + j];
      }
      forall i, j | 0 <= i < j < |a| ensures a[i] != a[j] {
        assert c[i] != c[j];
      }
      forall i, j | 0 <= i < j < |b| ensures b[i] != b[j] {
        assert c[|a| + i] != c[|a| + j];
      }
    }
    if NoDuplicates(a) && NoDuplicates(b) && Names(a) !! Names(b) {
      forall i, j | 0 <= i < |a| && 0 <= j < |b| ensures a[i] != b[j] {
        assert a[i] in Names(a) && b[j] in Names(b);
      }
    }
  }

  // ----- the same trees for one target -----

  function Marker(target: string): Json {
    Obj(map["name" := Str(MARKER), "value" := Str(target)])
  }

  function PropertiesOf(c: Json): seq<Json>
    requires c.Obj? && PropertiesFine(c)
  {
    if PROPERTIES in c.fields then c.fields[PROPERTIES].items else []
  }

  /** A component without its nested ones, for one target. */
  function CopiedFields(c: Json, target: string): map<string, Json>
    requires c.Obj? && PropertiesFine(c) && ReferenceFine(c)
  {
    var marked := c.fields[PROPERTIES := Arr(PropertiesOf(c) + [Marker(target)])];
    if BOM_REF in c.fields then marked[BOM_REF := Str(TargetRef(target, c.fields[BOM_REF].s))] else marked
  }

  function Copied(c: Json, target: string): Json
    requires WellFormed(c)
    decreases c
  {
    var fields := CopiedFields(c, target);
    if HasChildren(c) then Obj(fields[COMPONENTS := Arr(CopiedAll(c.fields[COMPONENTS].items, target))])
      else Obj(fields)
  }

  function CopiedAll(cs: seq<Json>, target: string): (r: seq<Json>)
    requires AllWellFormed(cs)
    ensures |r| == |cs|
    decreases cs
  {
    if cs == [] then [] else [Copied(cs[0], target)] + CopiedAll(cs[1..], target)
  }

  function TargetRefs(target: string, names: set<string>): set<string> {
    set x | x in names :: TargetRef(target, x)
  }

  // ----- the target stays readable in every reference -----

  predicate IsTarget(target: string) {
    ':' !in target
  }

  lemma TargetRefInjective(t: string, a: string, u: string, b: string)
    requires IsTarget(t) && IsTarget(u) && TargetRef(t, a) == TargetRef(u, b)
    ensures t == u && a == b
  {
    var prefix := "urn:ancestryllm:target:";
    var x, y := TargetRef(t, a), TargetRef(u, b);
    assert x[|prefix|..] == t + ":" + a && y[|prefix|..] == u + ":" + b;
    SplitAtColon(t, a, u, b);
  }

  lemma SplitAtColon(t: string, a: string, u: string, b: string)
    requires IsTarget(t) && IsTarget(u) && t + ":" + a == u + ":" + b
    ensures t == u && a == b
  {
    var x := t + ":" + a;
    assert x == u + ":" + b;
    FirstColon(t, a);
    FirstColon(u, b);
    assert |t| == |u|;
    assert x[..|t|] == t && x[..|u|] == u;
    assert x[|t| + 1..] == a && x[|u| + 1..] == b;
  }

  lemma FirstColon(t: string, a: string)
    requires IsTarget(t)
    ensures (t + ":" + a)[|t|] == ':' && forall i :: 0 <= i < |t| ==> (t + ":" + a)[i] != ':'
  {
    assert forall i :: 0 <= i < |t| ==> t[i] in t;
  }

  /** References of different targets never collide; those of one target collide only when they were the same. */
  lemma TargetsDisjoint(t: string, u: string, a: set<string>, b: set<string>)
    requires IsTarget(t) && IsTarget(u)
    ensures TargetRefs(t, a) !! TargetRefs(u, b) <==> t != u || a !! b
  {
    if t == u && exists x :: x in a && x in b {
      var x :| x in a && x in b;
      assert TargetRef(t, x) in TargetRefs(t, a) && TargetRef(t, x) in TargetRefs(u, b);
    }
    forall x, y | x in a && y in b && TargetRef(t, x) == TargetRef(u, y) ensures t == u && x == y {
      TargetRefInjective(t, x, u, y);
    }
  }

  // ----- the recursion -----

  datatype Targeted = Targeted(component: Json, references: set<string>)

  /** `_target_component`: exactly the well-formed trees without repeated references are accepted. */
  method TargetComponent(c: Json, target: string) returns (r: Result<Targeted>)
    requires c.Obj? && IsTarget(target)
    ensures r.Ok? <==> WellFormed(c) && NoDuplicates(TreeReferences(c))
    ensures r.Ok? ==> r.value == Targeted(Copied(c, target), TargetRefs(target, Names(TreeReferences(c))))
    decreases c, 1
  {
    if !PropertiesFine(c) || !ReferenceFine(c) || !ChildrenFine(c) {
      return Err(MALFORMED);
    }
    var copied := CopiedFields(c, target);
    var references := TargetRefs(target, Names(OwnReference(c)));
    if HasChildren(c) {
      var children :- TargetChildren(c.fields[COMPONENTS].items, c, OwnReference(c), target);
      return Ok(Targeted(Obj(copied[COMPONENTS := Arr(children.components)]), children.references));
    }
    r := Ok(Targeted(Obj(copied), references));
  }

  lemma DuplicatesInside(a: seq<string>, b: seq<string>, c: seq<string>)
    ensures a + b + c == a + (b + c)
    ensures NoDuplicates(a + (b + c)) ==> NoDuplicates(b) && Names(a) !! Names(b)
  {
    NoDuplicatesAppend(a + b, c);
    NoDuplicatesAppend(a, b);
    assert a + b + c == a + (b + c);
  }

  lemma TargetRefsJoin(target: string, a: seq<string>, b: seq<string>)
    ensures TargetRefs(target, Names(a)) + TargetRefs(target, Names(b)) == TargetRefs(target, Names(a + b))
  {
    assert Names(a + b) == Names(a) + Names(b);
  }

  datatype TargetedAll = TargetedAll(components: seq<Json>, references: set<string>)

  /** The loop over the nested components, with the references that came before. */
  method TargetChildren(cs: seq<Json>, ghost whole: Json, own: seq<string>, target: string)
    returns (r: Result<TargetedAll>)
    requires IsTarget(target) && (forall x :: x in cs ==> x < whole && x.Obj?)
    requires NoDuplicates(own)
    ensures r.Ok? <==> AllWellFormed(cs) && NoDuplicates(own + ForestReferences(cs))
    ensures r.Ok? ==> r.value == TargetedAll(CopiedAll(cs, target),
      TargetRefs(target, Names(own + ForestReferences(cs))))
    decreases whole, 0
  {
    hide WellFormed, NoDuplicates, Names, TargetRefs, Copied, TreeReferences;
    var components: seq<Json> := [];
    var references := TargetRefs(target, Names(own));
    ghost var seen := own;
    for i := 0 to |cs|
      invariant NoDuplicates(seen) && references == TargetRefs(target, Names(seen))
      invariant AllWellFormed(cs[i..]) <==> AllWellFormed(cs)
      invariant AllWellFormed(cs) ==> components + CopiedAll(cs[i..], target) == CopiedAll(cs, target)
      invariant seen + ForestReferences(cs[i..]) == own + ForestReferences(cs)
    {
      assert cs[i] in cs;
      assert cs[i..][0] == cs[i] && cs[i..][1..] == cs[i + 1..];
      ghost var names, rest := TreeReferences(cs[i]), ForestReferences(cs[i + 1..]);
      DuplicatesInside(seen, names, rest);
      assert ForestReferences(cs[i..]) == names + rest;
      var child :- TargetComponent(cs[i], target);
      NoDuplicatesAppend(seen, names);
      TargetsDisjoint(target, target, Names(seen), Names(names));
      if !(references !! child.references) {
        return Err(DUPLICATE);
      }
      TargetRefsJoin(target, seen, names);
      references := references + child.references;
      seen := seen + names;
      components := components + [child.component];
    }
    assert cs[|cs|..] == [] && seen + [] == seen && components + [] == components;
    r := Ok(TargetedAll(components, references));
  }

  // ----- references of the copies -----

  function Prefixed(target: string, names: seq<string>): (r: seq<string>)
    ensures |r| == |names| && forall i :: 0 <= i < |r| ==> r[i] == TargetRef(target, names[i])
  {
    seq(|names|, i requires 0 <= i < |names| => TargetRef(target, names[i]))
  }

  lemma KeysDiffer()
    ensures BOM_REF != PROPERTIES && BOM_REF != COMPONENTS && PROPERTIES != COMPONENTS
  {
    assert |BOM_REF| == 7 && |PROPERTIES| == 10 && |COMPONENTS| == 10;
    assert PROPERTIES[0] == 'p' && COMPONENTS[0] == 'c';
  }

  lemma CopiedOwn(c: Json, target: string)
    requires c.Obj? && PropertiesFine(c) && ReferenceFine(c)
    ensures
      var d := Obj(CopiedFields(c, target));
      && OwnReference(d) == Prefixed(target, OwnReference(c))
      && (COMPONENTS in d.fields <==> COMPONENTS in c.fields)
      && (COMPONENTS in c.fields ==> d.fields[COMPONENTS] == c.fields[COMPONENTS])
  {
    KeysDiffer();
    hide TargetRef;
  }

  lemma PrefixedAppend(target: string, a: seq<string>, b: seq<string>)
    ensures Prefixed(target, a + b) == Prefixed(target, a) + Prefixed(target, b)
  {
    hide TargetRef;
  }

  lemma TreeReferencesParts(c: Json)
    requires c.Obj?
    ensures HasChildren(c) ==> TreeReferences(c) == OwnReference(c) + ForestReferences(c.fields[COMPONENTS].items)
    ensures !HasChildren(c) ==> TreeReferences(c) == OwnReference(c)
  {
  }

  /** The copy has the same references in the same places, each with the target before it. */
  lemma {:induction false} CopiedReferences(c: Json, target: string)
    requires WellFormed(c)
    ensures TreeReferences(Copied(c, target)) == Prefixed(target, TreeReferences(c))
    decreases c
  {
    CopiedOwn(c, target);
    KeysDiffer();
    var d, e := Obj(CopiedFields(c, target)), Copied(c, target);
    TreeReferencesParts(c);
    TreeReferencesParts(e);
    if HasChildren(c) {
      var children := c.fields[COMPONENTS].items;
      AllCopiedReferences(children, target);
      assert OwnReference(e) == OwnReference(d);
      assert e.fields[COMPONENTS] == Arr(CopiedAll(children, target));
      PrefixedAppend(target, OwnReference(c), ForestReferences(children));
    }
    hide *;
  }

  lemma {:induction false} AllCopiedReferences(cs: seq<Json>, target: string)
    requires AllWellFormed(cs)
    ensures ForestReferences(CopiedAll(cs, target)) == Prefixed(target, ForestReferences(cs))
    decreases cs
  {
    if cs != [] {
      CopiedReferences(cs[0], target);
      AllCopiedReferences(cs[1..], target);
      var first, rest := Copied(cs[0], target), CopiedAll(cs[1..], target);
      assert CopiedAll(cs, target) == [first] + rest;
      assert ForestReferences([first] + rest) == TreeReferences(first) + ForestReferences(rest);
      PrefixedAppend(target, TreeReferences(cs[0]), ForestReferences(cs[1..]));
      hide TargetRef, Copied, WellFormed, TreeReferences, Prefixed;
    }
  }

  lemma {:induction false} ForestAppend(a: seq<Json>, b: seq<Json>)
    ensures ForestReferences(a + b) == ForestReferences(a) + ForestReferences(b)
  {
    hide TreeReferences;
    if a == [] {
      assert a + b == b;
    } else {
      ForestAppend(a[1..], b);
      assert (a + b)[0] == a[0] && (a + b)[1..] == a[1..] + b;
      Regroup(TreeReferences(a[0]), ForestReferences(a[1..]), ForestReferences(b));
    }
  }

  lemma Regroup(a: seq<string>, b: seq<string>, c: seq<string>)
    ensures (a + b) + c == a + (b + c)
  {
  }

  lemma PrefixedNames(target: string, names: seq<string>)
    requires IsTarget(target)
    ensures Names(Prefixed(target, names)) == TargetRefs(target, Names(names))
    ensures NoDuplicates(names) ==> NoDuplicates(Prefixed(target, names))
  {
    hide TargetRef;
    var r := Prefixed(target, names);
    forall x | x in TargetRefs(target, Names(names)) ensures x in r {
      var y :| y in names && x == TargetRef(target, y);
      var i :| 0 <= i < |names| && names[i] == y;
      assert r[i] == x;
    }
    forall x | x in r ensures x in TargetRefs(target, Names(names)) {
      var i :| 0 <= i < |r| && r[i] == x;
      assert names[i] in Names(names);
    }
    if NoDuplicates(names) {
      forall i, j | 0 <= i < j < |r| ensures r[i] != r[j] {
        if r[i] == r[j] {
          TargetRefInjective(target, names[i], target, names[j]);
        }
      }
    }
  }
}
