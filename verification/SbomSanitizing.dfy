/** `_sanitize_local_values` (scripts/generate_sbom.py:46-99), which removes what cyclonedx-py says about local
  * distributions and refuses any other local path. Whether `urlsplit` finds the scheme `file` is a parameter.
  */
module SbomSanitizing {
  import opened Json
  import opened Sorting
  import opened Wrappers

  const REFERENCES := "externalReferences"
  const STRUCTURE := "SBOM_STRUCTURE_INVALID"
  const LOCAL_PATH := "SBOM_LOCAL_PATH"

  predicate Letter(c: char) { 'A' <= c <= 'Z' || 'a' <= c <= 'z' }

  /** `_is_local_path` */
  predicate IsLocalPath(s: string, file: string -> bool) {
    || file(s)
    || (|s| >= 1 && s[0] == '/')
    || (|s| >= 2 && s[0] == '\\' && s[1] == '\\')
    || (|s| >= 3 && Letter(s[0]) && s[1] == ':' && (s[2] == '\\' || s[2] == '/'))
  }

  /** `_is_recognized_local_distribution` */
  predicate Recognized(reference: Json, file: string -> bool) {
    && reference.Obj?
    && reference.fields.Keys == {"comment", "type", "url"}
    && reference.fields["comment"] == Str("PackageSource: Local")
    && reference.fields["type"] == Str("distribution")
    && reference.fields["url"].Str? && file(reference.fields["url"].s)
  }

  // ----- what is accepted, and what it becomes -----

  /** What a list of external references must be, apart from its contents. */
  predicate ReferencesFine(v: Json) {
    v.Null? || (v.Arr? && forall i :: 0 <= i < |v.items| ==> v.items[i].Obj?)
  }

  predicate Cleanable(v: Json, file: string -> bool)
    decreases v, 0
  {
    match v
    case Str(s) => !IsLocalPath(s, file)
    case Arr(items) => forall i :: 0 <= i < |items| ==> Cleanable(items[i], file)
    case Obj(fields) =>
      (REFERENCES in fields ==> ReferencesFine(fields[REFERENCES])) &&
      (forall k :: k in fields ==> CleanableField(k, fields[k], file))
    case _ => true
  }

  predicate CleanableField(key: string, v: Json, file: string -> bool)
    decreases v, 1
  {
    if key == REFERENCES && v.Arr? then CleanableReferences(v.items, file) else Cleanable(v, file)
  }

  predicate CleanableReferences(items: seq<Json>, file: string -> bool) {
    forall i :: 0 <= i < |items| ==> Recognized(items[i], file) || Cleanable(items[i], file)
  }

  function Stripped(v: Json, file: string -> bool): Json
    decreases v, 0
  {
    match v
    case Arr(items) => Arr(StrippedItems(items, file))
    case Obj(fields) => Obj(map k | k in fields :: StrippedField(k, fields[k], file))
    case _ => v
  }

  function StrippedField(key: string, v: Json, file: string -> bool): Json
    decreases v, 1
  {
    if key == REFERENCES && v.Arr? then Arr(StrippedReferences(v.items, file)) else Stripped(v, file)
  }

  function StrippedItems(items: seq<Json>, file: string -> bool): (r: seq<Json>)
    ensures |r| == |items|
  {
    if items == [] then [] else [Stripped(items[0], file)] + StrippedItems(items[1..], file)
  }

  function StrippedReferences(items: seq<Json>, file: string -> bool): seq<Json> {
    if items == [] then []
    else if Recognized(items[0], file) then StrippedReferences(items[1..], file)
    else [Stripped(items[0], file)] + StrippedReferences(items[1..], file)
  }

  // ----- what the result is -----

  /** No string value anywhere in v is a local path. */
  predicate NoLocalPaths(v: Json, file: string -> bool) {
    match v
    case Str(s) => !IsLocalPath(s, file)
    case Arr(items) => forall i :: 0 <= i < |items| ==> NoLocalPaths(items[i], file)
    case Obj(fields) => forall k :: k in fields ==> NoLocalPaths(fields[k], file)
    case _ => true
  }

  predicate NoneRecognized(v: Json, file: string -> bool) {
    ReferencesFine(v) && (v.Arr? ==> forall i :: 0 <= i < |v.items| ==> !Recognized(v.items[i], file))
  }

  /** Nothing is left to remove or to refuse. */
  predicate Settled(v: Json, file: string -> bool) {
    match v
    case Str(s) => !IsLocalPath(s, file)
    case Arr(items) => forall i :: 0 <= i < |items| ==> Settled(items[i], file)
    case Obj(fields) =>
      (REFERENCES in fields ==> NoneRecognized(fields[REFERENCES], file))
        && forall k :: k in fields ==> Settled(fields[k], file)
    case _ => true
  }

  lemma StrippedStaysUnrecognized(v: Json, file: string -> bool)
    ensures Stripped(v, file).Obj? <==> v.Obj?
    ensures Recognized(Stripped(v, file), file) ==> Recognized(v, file)
  {
    var r := Stripped(v, file);
    if Recognized(r, file) {
      assert r.fields.Keys == v.fields.Keys;
      assert "comment" in v.fields && "type" in v.fields && "url" in v.fields;
      StrippedString(v.fields["comment"], file);
      StrippedString(v.fields["type"], file);
      StrippedString(v.fields["url"], file);
      assert REFERENCES != "comment" && REFERENCES != "type" && REFERENCES != "url" by {
        assert |REFERENCES| != |"comment"| && |REFERENCES| != |"type"| && |REFERENCES| != |"url"|;
      }
    }
  }

  lemma StrippedString(v: Json, file: string -> bool)
    ensures Stripped(v, file).Str? ==> Stripped(v, file) == v
  {
  }

  /** Sanitising settles whatever it accepts. */
  lemma {:induction false} StrippedSettles(v: Json, file: string -> bool)
    requires Cleanable(v, file)
    ensures Settled(Stripped(v, file), file)
    decreases v
  {
    match v
    case Arr(items) => ItemsSettle(items, file);
    case Obj(fields) =>
      var r := Stripped(v, file).fields;
      forall k | k in r
        ensures Settled(r[k], file)
        ensures k == REFERENCES ==> NoneRecognized(r[k], file)
      {
        assert CleanableField(k, fields[k], file);
        assert r[k] == StrippedField(k, fields[k], file);
        if k == REFERENCES && fields[k].Arr? {
          ReferencesSettle(fields[k].items, file);
          assert r[k] == Arr(StrippedReferences(fields[k].items, file));
          assert forall i :: 0 <= i < |r[k].items| ==> r[k].items[i] in StrippedReferences(fields[k].items, file);
        } else {
          StrippedSettles(fields[k], file);
        }
      }
    case _ =>
  }

  lemma {:induction false} ItemsSettle(items: seq<Json>, file: string -> bool)
    requires forall i :: 0 <= i < |items| ==> Cleanable(items[i], file)
    ensures forall i :: 0 <= i < |items| ==> Settled(StrippedItems(items, file)[i], file)
    decreases items
  {
    if items != [] {
      StrippedSettles(items[0], file);
      ItemsSettle(items[1..], file);
    }
  }

  lemma {:induction false} ReferencesSettle(items: seq<Json>, file: string -> bool)
    requires CleanableReferences(items, file) && forall i :: 0 <= i < |items| ==> items[i].Obj?
    ensures forall x :: x in StrippedReferences(items, file) ==> Settled(x, file) && x.Obj? && !Recognized(x, file)
    decreases items
  {
    hide Settled, Recognized;
    if items != [] {
      ReferencesSettle(items[1..], file);
      if !Recognized(items[0], file) {
        StrippedStaysUnrecognized(items[0], file);
        StrippedSettles(items[0], file);
        assert StrippedReferences(items, file) == [Stripped(items[0], file)] + StrippedReferences(items[1..], file);
      }
    }
  }

  /** Sanitising accepts what is settled, and leaves it as it is. */
  lemma {:induction false} SettledStays(v: Json, file: string -> bool)
    requires Settled(v, file)
    ensures Cleanable(v, file) && Stripped(v, file) == v
    decreases v
  {
    match v
    case Arr(items) => SettledItemsStay(items, file);
    case Obj(fields) =>
      forall k | k in fields
        ensures CleanableField(k, fields[k], file) && StrippedField(k, fields[k], file) == fields[k]
      {
        if k == REFERENCES && fields[k].Arr? {
          SettledReferencesStay(fields[k].items, file);
        } else {
          SettledStays(fields[k], file);
        }
      }
      assert Stripped(v, file).fields == fields;
    case _ =>
  }

  lemma {:induction false} SettledItemsStay(items: seq<Json>, file: string -> bool)
    requires forall i :: 0 <= i < |items| ==> Settled(items[i], file)
    ensures forall i :: 0 <= i < |items| ==> Cleanable(items[i], file)
    ensures StrippedItems(items, file) == items
    decreases items
  {
    if items != [] {
      SettledStays(items[0], file);
      SettledItemsStay(items[1..], file);
      assert items == [items[0]] + items[1..];
    }
  }

  lemma {:induction false} SettledReferencesStay(items: seq<Json>, file: string -> bool)
    requires forall i :: 0 <= i < |items| ==> Settled(items[i], file) && !Recognized(items[i], file)
    ensures CleanableReferences(items, file) && StrippedReferences(items, file) == items
    decreases items
  {
    if items != [] {
      SettledStays(items[0], file);
      SettledReferencesStay(items[1..], file);
      assert items == [items[0]] + items[1..];
    }
  }

  lemma {:induction false} SettledHasNoLocalPaths(v: Json, file: string -> bool)
    requires Settled(v, file)
    ensures NoLocalPaths(v, file)
    decreases v
  {
    match v
    case Arr(items) =>
      forall i | 0 <= i < |items| ensures NoLocalPaths(items[i], file) { SettledHasNoLocalPaths(items[i], file); }
    case Obj(fields) =>
      forall k | k in fields ensures NoLocalPaths(fields[k], file) { SettledHasNoLocalPaths(fields[k], file); }
    case _ =>
  }

  /** No local path survives, and sanitising twice is sanitising once. */
  lemma SanitizingIsIdempotent(v: Json, file: string -> bool)
    requires Cleanable(v, file)
    ensures NoLocalPaths(Stripped(v, file), file)
    ensures Cleanable(Stripped(v, file), file) && Stripped(Stripped(v, file), file) == Stripped(v, file)
  {
    StrippedSettles(v, file);
    SettledHasNoLocalPaths(Stripped(v, file), file);
    SettledStays(Stripped(v, file), file);
  }

  // ----- the traversal -----

  function Kept(references: seq<Json>, file: string -> bool): (kept: seq<Json>)
    ensures forall x :: x in kept ==> x in references
  {
    if references == [] then []
    else if Recognized(references[0], file) then Kept(references[1..], file)
    else [references[0]] + Kept(references[1..], file)
  }

  lemma {:induction false} KeptIsStripped(references: seq<Json>, file: string -> bool)
    ensures StrippedItems(Kept(references, file), file) == StrippedReferences(references, file)
  {
    if references != [] {
      hide Stripped, Recognized;
      KeptIsStripped(references[1..], file);
      if !Recognized(references[0], file) {
        var kept := Kept(references[1..], file);
        assert ([references[0]] + kept)[1..] == kept;
      }
    }
  }

  lemma {:induction false} KeptIsTheRest(references: seq<Json>, file: string -> bool)
    ensures forall x :: x in Kept(references, file) <==> x in references && !Recognized(x, file)
  {
    if references != [] {
      hide Recognized;
      KeptIsTheRest(references[1..], file);
      assert references == [references[0]] + references[1..];
    }
  }

  /** The references that stay are cleanable exactly when the whole list is. */
  lemma KeptDecides(references: seq<Json>, file: string -> bool)
    ensures (forall x :: x in Kept(references, file) ==> Cleanable(x, file)) <==> CleanableReferences(references, file)
  {
    hide Recognized;
    KeptIsTheRest(references, file);
    if CleanableReferences(references, file) {
      forall x | x in Kept(references, file) ensures Cleanable(x, file) {
        var i :| 0 <= i < |references| && references[i] == x;
      }
    } else {
      var i :| 0 <= i < |references| && !Recognized(references[i], file) && !Cleanable(references[i], file);
      assert references[i] in Kept(references, file);
    }
  }

  method RetainReferences(references: seq<Json>, file: string -> bool) returns (r: Result<seq<Json>>)
    ensures r.Ok? <==> ReferencesFine(Arr(references))
    ensures r.Ok? ==> r.value == Kept(references, file)
    ensures r.Err? ==> r.code == STRUCTURE
  {
    hide Recognized;
    var retained: seq<Json> := [];
    for i := 0 to |references|
      invariant forall j :: 0 <= j < i ==> references[j].Obj?
      invariant retained + Kept(references[i..], file) == Kept(references, file)
    {
      if !references[i].Obj? {
        return Err(STRUCTURE);
      }
      assert references[i..][1..] == references[i + 1..];
      if Recognized(references[i], file) {
        continue;
      }
      retained := retained + [references[i]];
    }
    r := Ok(retained);
  }

  /** The loop over a list inside `whole`. */
  method SanitizeItems(items: seq<Json>, ghost whole: Json, file: string -> bool) returns (r: Result<seq<Json>>)
    requires forall x :: x in items ==> x < whole
    ensures r.Ok? <==> forall x :: x in items ==> Cleanable(x, file)
    ensures r.Ok? ==> r.value == StrippedItems(items, file)
    ensures r.Err? ==> r.code == STRUCTURE || r.code == LOCAL_PATH
    decreases whole, 0
  {
    hide Cleanable, Stripped, IsLocalPath;
    var sanitized: seq<Json> := [];
    for i := 0 to |items|
      invariant forall j :: 0 <= j < i ==> Cleanable(items[j], file)
      invariant sanitized + StrippedItems(items[i..], file) == StrippedItems(items, file)
    {
      assert items[i] in items;
      var item :- Sanitize(items[i], file);
      assert items[i..][1..] == items[i + 1..];
      sanitized := sanitized + [item];
    }
    r := Ok(sanitized);
  }

  /** The members of an object already visited. */
  ghost predicate Visited(fields: map<string, Json>, pending: set<string>, sanitized: map<string, Json>,
                          file: string -> bool) {
    && pending <= fields.Keys && sanitized.Keys == fields.Keys - pending
    && (forall k :: k in sanitized ==>
      && CleanableField(k, fields[k], file)
      && sanitized[k] == StrippedField(k, fields[k], file))
  }

  lemma AllVisited(fields: map<string, Json>, sanitized: map<string, Json>, file: string -> bool)
    requires Visited(fields, {}, sanitized, file) && (REFERENCES in fields ==> ReferencesFine(fields[REFERENCES]))
    ensures Cleanable(Obj(fields), file) && Obj(sanitized) == Stripped(Obj(fields), file)
  {
    hide CleanableField, StrippedField;
    assert sanitized == Stripped(Obj(fields), file).fields;
  }

  method SanitizeReferences(fields: map<string, Json>, file: string -> bool) returns (r: Result<map<string, Json>>)
    ensures r.Ok? <==>
      (REFERENCES in fields ==>
        && ReferencesFine(fields[REFERENCES])
        && CleanableField(REFERENCES, fields[REFERENCES], file))
    ensures r.Ok? ==> exists pending ::
      && Visited(fields, pending, r.value, file)
      && (REFERENCES in pending ==> fields[REFERENCES].Null?)
    ensures r.Err? ==> r.code == STRUCTURE || r.code == LOCAL_PATH
    decreases Obj(fields), 1
  {
    hide Recognized, Kept;
    if REFERENCES !in fields || fields[REFERENCES].Null? {
      assert Visited(fields, fields.Keys, map[], file);
      assert REFERENCES in fields ==> CleanableField(REFERENCES, fields[REFERENCES], file);
      return Ok(map[]);
    }
    if !fields[REFERENCES].Arr? {
      return Err(STRUCTURE);
    }
    var references := fields[REFERENCES].items;
    var retained :- RetainReferences(references, file);
    KeptIsStripped(references, file);
    KeptDecides(references, file);
    forall x | x in retained ensures x < Obj(fields) {
      assert x in references;
      assert x < fields[REFERENCES];
    }
    var sanitized :- SanitizeItems(retained, Obj(fields), file);
    r := Ok(map[REFERENCES := Arr(sanitized)]);
    assert Visited(fields, fields.Keys - {REFERENCES}, r.value, file);
  }

  method SanitizeObject(fields: map<string, Json>, file: string -> bool) returns (r: Result<Json>)
    ensures r.Ok? <==> Cleanable(Obj(fields), file)
    ensures r.Ok? ==> r.value == Stripped(Obj(fields), file)
    ensures r.Err? ==> r.code == STRUCTURE || r.code == LOCAL_PATH
    decreases Obj(fields), 2
  {
    var sanitized :- SanitizeReferences(fields, file);
    var pending := fields.Keys - sanitized.Keys;
    while pending != {}
      invariant Visited(fields, pending, sanitized, file) && (REFERENCES in pending ==> fields[REFERENCES].Null?)
      decreases pending
    {
      var k := Any(pending);
      var value :- Sanitize(fields[k], file);
      sanitized := sanitized[k := value];
      pending := pending - {k};
    }
    AllVisited(fields, sanitized, file);
    r := Ok(Obj(sanitized));
  }

  /** `_sanitize_local_values`. A recognised reference is skipped unseen; every other value is visited. */
  method Sanitize(v: Json, file: string -> bool) returns (r: Result<Json>)
    ensures r.Ok? <==> Cleanable(v, file)
    ensures r.Ok? ==> r.value == Stripped(v, file)
    ensures r.Err? ==> r.code == STRUCTURE || r.code == LOCAL_PATH
    decreases v, 3
  {
    match v
    case Obj(fields) =>
      r := SanitizeObject(fields, file);
    case Arr(items) =>
      assert forall i :: 0 <= i < |items| ==> items[i] in items;
      var sanitized :- SanitizeItems(items, v, file);
      r := Ok(Arr(sanitized));
    case Str(s) =>
      r := if IsLocalPath(s, file) then Err(LOCAL_PATH) else Ok(v);
    case _ =>
      r := Ok(v);
  }
}
