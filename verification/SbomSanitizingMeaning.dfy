/** What `_sanitize_local_values` (scripts/generate_sbom.py:46-99) refuses and what it removes, said of the strings of a
  * document and the places in its lists.
  */
module SbomSanitizingMeaning {
  import opened Json
  import opened SbomSanitizing

  /** A file URL, or a path that begins with a slash, with two backslashes, or with a drive, a colon and a slash. */
  ghost predicate IsLocal(x: string, file: string -> bool) {
    || file(x) || "/" <= x || "\\\\" <= x
    || exists drive: char, slash :: ('a' <= drive <= 'z' || 'A' <= drive <= 'Z') && slash in {'/', '\\'}
         && [drive, ':', slash] <= x
  }

  lemma IsLocalIff(x: string, file: string -> bool)
    ensures IsLocal(x, file) <==> IsLocalPath(x, file)
  {
    if IsLocalPath(x, file) && !file(x) && x[0] != '/' && !(x[0] == '\\' && x[1] == '\\') {
      assert [x[0], ':', x[2]] <= x;
    }
  }

  /** What cyclonedx-py says of a distribution that was installed from a local file. */
  ghost predicate IsLocalDistribution(v: Json, file: string -> bool) {
    exists url :: file(url) && v == Obj(map[
      "comment" := Str("PackageSource: Local"), "type" := Str("distribution"), "url" := Str(url)])
  }

  lemma IsLocalDistributionIff(v: Json, file: string -> bool)
    ensures IsLocalDistribution(v, file) <==> Recognized(v, file)
  {
    if Recognized(v, file) {
      var url := v.fields["url"].s;
      assert v.fields == map["comment" := Str("PackageSource: Local"), "type" := Str("distribution"),
        "url" := Str(url)];
    }
    forall url | file(url) && v == Obj(map["comment" := Str("PackageSource: Local"), "type" := Str("distribution"),
                                           "url" := Str(url)])
      ensures Recognized(v, file)
    {
      assert |"comment"| == 7 && |"type"| == 4 && |"url"| == 3;
    }
  }

  // ----- the strings of a value -----

  /** x is a string value somewhere in v. */
  ghost predicate HasString(v: Json, x: string) {
    match v
    case Str(s) => s == x
    case Arr(items) => exists i :: 0 <= i < |items| && HasString(items[i], x)
    case Obj(fields) => exists k :: k in fields && HasString(fields[k], x)
    case _ => false
  }

  /** No string value of the result is a local path. */
  lemma {:induction false} NoLocalPathsIff(v: Json, file: string -> bool)
    ensures NoLocalPaths(v, file) <==> forall x :: HasString(v, x) ==> !IsLocal(x, file)
    decreases v
  {
    hide IsLocalPath, IsLocal;
    match v
    case Str(s) => IsLocalIff(s, file);
    case Arr(items) =>
      forall i | 0 <= i < |items|
        ensures NoLocalPaths(items[i], file) <==> forall x :: HasString(items[i], x) ==> !IsLocal(x, file)
      {
        NoLocalPathsIff(items[i], file);
      }
      assert forall i, x :: 0 <= i < |items| && HasString(items[i], x) ==> HasString(v, x);
    case Obj(fields) =>
      forall k | k in fields
        ensures NoLocalPaths(fields[k], file) <==> forall x :: HasString(fields[k], x) ==> !IsLocal(x, file)
      {
        NoLocalPathsIff(fields[k], file);
      }
      assert forall k, x :: k in fields && HasString(fields[k], x) ==> HasString(v, x);
    case _ =>
  }

  /** x is a string value in v that is not part of what is said of a local distribution. */
  ghost predicate HasChecked(v: Json, x: string, file: string -> bool)
    decreases v, 0
  {
    match v
    case Str(s) => s == x
    case Arr(items) => exists i :: 0 <= i < |items| && HasChecked(items[i], x, file)
    case Obj(fields) => exists k :: k in fields && HasCheckedIn(k, fields[k], x, file)
    case _ => false
  }

  ghost predicate HasCheckedIn(key: string, v: Json, x: string, file: string -> bool)
    decreases v, 1
  {
    if key == "externalReferences" && v.Arr?
    then exists i :: 0 <= i < |v.items| && !IsLocalDistribution(v.items[i], file) && HasChecked(v.items[i], x, file)
    else HasChecked(v, x, file)
  }

  /** Every list of external references in v is one, of objects, or absent. */
  ghost predicate ListsFine(v: Json, file: string -> bool)
    decreases v, 0
  {
    match v
    case Arr(items) => forall i :: 0 <= i < |items| ==> ListsFine(items[i], file)
    case Obj(fields) => forall k :: k in fields ==> ListFine(k, fields[k], file)
    case _ => true
  }

  ghost predicate ListFine(key: string, v: Json, file: string -> bool)
    decreases v, 1
  {
    if key == "externalReferences" && v.Arr?
    then forall i :: 0 <= i < |v.items| ==>
           v.items[i].Obj? && (IsLocalDistribution(v.items[i], file) || ListsFine(v.items[i], file))
    else if key == "externalReferences" then v.Null?
    else ListsFine(v, file)
  }

  /** What sanitising accepts. */
  ghost predicate Clean(v: Json, file: string -> bool) {
    ListsFine(v, file) && forall x :: HasChecked(v, x, file) ==> !IsLocal(x, file)
  }

  ghost predicate CleanIn(key: string, v: Json, file: string -> bool) {
    ListFine(key, v, file) && forall x :: HasCheckedIn(key, v, x, file) ==> !IsLocal(x, file)
  }

  lemma {:induction false} CleanableIff(v: Json, file: string -> bool)
    ensures Cleanable(v, file) <==> Clean(v, file)
    decreases v, 2
  {
    hide IsLocalPath, IsLocal, Recognized, IsLocalDistribution;
    match v
    case Str(s) => IsLocalIff(s, file);
    case Arr(items) =>
      forall i | 0 <= i < |items| ensures Cleanable(items[i], file) <==> Clean(items[i], file) {
        CleanableIff(items[i], file);
      }
      assert forall i, x :: 0 <= i < |items| && HasChecked(items[i], x, file) ==> HasChecked(v, x, file);
    case Obj(fields) =>
      forall k | k in fields
        ensures (k == REFERENCES ==> ReferencesFine(fields[k])) && CleanableField(k, fields[k], file)
          <==> CleanIn(k, fields[k], file)
      {
        CleanableFieldIff(k, fields[k], file);
      }
      assert forall k, x :: k in fields && HasCheckedIn(k, fields[k], x, file) ==> HasChecked(v, x, file);
    case _ =>
  }

  lemma {:induction false} CleanableFieldIff(key: string, v: Json, file: string -> bool)
    ensures (key == REFERENCES ==> ReferencesFine(v)) && CleanableField(key, v, file) <==> CleanIn(key, v, file)
    decreases v, 3
  {
    hide IsLocalPath, IsLocal, Recognized, IsLocalDistribution;
    if key == REFERENCES && v.Arr? {
      forall i | 0 <= i < |v.items|
        ensures Cleanable(v.items[i], file) <==> Clean(v.items[i], file)
        ensures IsLocalDistribution(v.items[i], file) <==> Recognized(v.items[i], file)
      {
        CleanableIff(v.items[i], file);
        IsLocalDistributionIff(v.items[i], file);
      }
      forall i, x | 0 <= i < |v.items| && !IsLocalDistribution(v.items[i], file) && HasChecked(v.items[i], x, file)
        ensures HasCheckedIn(key, v, x, file)
      {
      }
    } else {
      CleanableIff(v, file);
    }
  }

  // ----- what is removed -----

  /** w is v without what is said of local distributions; nothing else is changed. */
  ghost predicate Cleaned(v: Json, w: Json, file: string -> bool)
    decreases v, 0
  {
    match v
    case Arr(items) =>
      w.Arr? && |w.items| == |items| && forall i :: 0 <= i < |items| ==> Cleaned(items[i], w.items[i], file)
    case Obj(fields) =>
      w.Obj? && w.fields.Keys == fields.Keys && forall k :: k in fields ==> CleanedIn(k, fields[k], w.fields[k], file)
    case _ => w == v
  }

  ghost predicate CleanedIn(key: string, v: Json, w: Json, file: string -> bool)
    decreases v, 1
  {
    if key == "externalReferences" && v.Arr? then w.Arr? && exists places :: CleanedAt(v.items, w.items, places, file)
    else Cleaned(v, w, file)
  }

  /** The kept ones are those at these places, in order, and these are all but the local distributions. */
  ghost predicate CleanedAt(items: seq<Json>, kept: seq<Json>, places: seq<nat>, file: string -> bool)
    decreases items, 2
  {
    && |places| == |kept| && Increasing(places)
    && (forall a :: 0 <= a < |places| ==> KeptFrom(items, places[a], kept[a], file))
    && (forall i :: 0 <= i < |items| ==> (i in places <==> !IsLocalDistribution(items[i], file)))
  }

  predicate Increasing(places: seq<nat>) {
    forall a, b :: 0 <= a < b < |places| ==> places[a] < places[b]
  }

  ghost predicate KeptFrom(items: seq<Json>, place: nat, kept: Json, file: string -> bool)
    decreases items, 1
  {
    place < |items| && Cleaned(items[place], kept, file)
  }

  lemma {:induction false} StrippedIsCleaned(v: Json, file: string -> bool)
    ensures Cleaned(v, Stripped(v, file), file)
    decreases v, 4
  {
    hide IsLocalDistribution, Recognized;
    match v
    case Arr(items) =>
      ItemsStripped(items, file);
      forall i | 0 <= i < |items| ensures Cleaned(items[i], Stripped(items[i], file), file) {
        StrippedIsCleaned(items[i], file);
      }
    case Obj(fields) =>
      var w := Stripped(v, file).fields;
      forall k | k in fields ensures w[k] == StrippedField(k, fields[k], file) && CleanedIn(k, fields[k], w[k], file) {
        if k == REFERENCES && fields[k].Arr? {
          var places := ReferencesCleaned(fields[k].items, file);
        } else {
          StrippedIsCleaned(fields[k], file);
        }
      }
    case _ =>
  }

  lemma {:induction false} ItemsStripped(items: seq<Json>, file: string -> bool)
    ensures forall i :: 0 <= i < |items| ==> StrippedItems(items, file)[i] == Stripped(items[i], file)
  {
    hide Stripped;
    if items != [] {
      ItemsStripped(items[1..], file);
      forall i | 0 < i < |items| ensures StrippedItems(items, file)[i] == Stripped(items[i], file) {
        assert items[1..][i - 1] == items[i];
      }
    }
  }

  function Shifted(places: seq<nat>): (r: seq<nat>)
    ensures |r| == |places| && forall a :: 0 <= a < |r| ==> r[a] == places[a] + 1
  {
    seq(|places|, a requires 0 <= a < |places| => places[a] + 1)
  }

  lemma {:induction false} ReferencesCleaned(items: seq<Json>, file: string -> bool) returns (places: seq<nat>)
    ensures CleanedAt(items, StrippedReferences(items, file), places, file)
    decreases items, 3
  {
    hide IsLocalDistribution, Recognized, Cleaned, Stripped, KeptFrom;
    if items == [] {
      places := [];
    } else {
      var rest := ReferencesCleaned(items[1..], file);
      IsLocalDistributionIff(items[0], file);
      var kept := StrippedReferences(items[1..], file);
      if Recognized(items[0], file) {
        places := Shifted(rest);
        DroppedFirst(items, kept, rest, file);
      } else {
        StrippedIsCleaned(items[0], file);
        places := [0] + Shifted(rest);
        KeptFirst(items, Stripped(items[0], file), kept, rest, file);
      }
    }
  }

  lemma ShiftedMembers(places: seq<nat>)
    ensures forall i: nat :: i in places <==> i + 1 in Shifted(places)
    ensures 0 !in Shifted(places)
  {
    forall i: nat ensures i in places <==> i + 1 in Shifted(places) {
      if i in places {
        var a :| 0 <= a < |places| && places[a] == i;
        assert Shifted(places)[a] == i + 1;
      }
    }
  }

  lemma KeptLater(items: seq<Json>, place: nat, kept: Json, file: string -> bool)
    requires items != []
    ensures KeptFrom(items[1..], place, kept, file) ==> KeptFrom(items, place + 1, kept, file)
  {
    hide Cleaned;
    assert place < |items[1..]| ==> items[1..][place] == items[place + 1];
  }

  lemma InLater(items: seq<Json>, rest: seq<nat>, i: nat, file: string -> bool)
    requires 0 < i < |items| && (i - 1 in rest <==> !IsLocalDistribution(items[1..][i - 1], file))
    ensures i in Shifted(rest) <==> !IsLocalDistribution(items[i], file)
  {
    ShiftedMembers(rest);
    var j: nat := i - 1;
    assert j in rest <==> j + 1 in Shifted(rest);
    assert items[1..][i - 1] == items[i];
  }

  lemma DroppedFirst(items: seq<Json>, kept: seq<Json>, rest: seq<nat>, file: string -> bool)
    requires items != [] && CleanedAt(items[1..], kept, rest, file) && IsLocalDistribution(items[0], file)
    ensures CleanedAt(items, kept, Shifted(rest), file)
  {
    hide IsLocalDistribution, KeptFrom;
    var at := Shifted(rest);
    forall a | 0 <= a < |at| ensures KeptFrom(items, at[a], kept[a], file) {
      KeptLater(items, rest[a], kept[a], file);
    }
    forall i | 0 <= i < |items| ensures i in at <==> !IsLocalDistribution(items[i], file) {
      if i > 0 {
        InLater(items, rest, i, file);
      } else {
        ShiftedMembers(rest);
      }
    }
  }

  lemma KeptFirst(items: seq<Json>, first: Json, kept: seq<Json>, rest: seq<nat>, file: string -> bool)
    requires items != [] && CleanedAt(items[1..], kept, rest, file)
    requires !IsLocalDistribution(items[0], file) && Cleaned(items[0], first, file)
    ensures CleanedAt(items, [first] + kept, [0] + Shifted(rest), file)
  {
    hide IsLocalDistribution, KeptFrom, Cleaned;
    var at := Shifted(rest);
    var all, places := [first] + kept, [0] + at;
    FirstKept(items, first, file);
    forall a | 0 <= a < |places| ensures KeptFrom(items, places[a], all[a], file) {
      if a > 0 {
        KeptLater(items, rest[a - 1], kept[a - 1], file);
        assert places[a] == rest[a - 1] + 1 && all[a] == kept[a - 1];
      }
    }
    IncreasingFromZero(rest);
    forall i | 0 <= i < |items| ensures i in places <==> !IsLocalDistribution(items[i], file) {
      InCons(at, i);
      if i > 0 {
        InLater(items, rest, i, file);
      }
    }
  }

  lemma FirstKept(items: seq<Json>, first: Json, file: string -> bool)
    requires items != [] && Cleaned(items[0], first, file)
    ensures KeptFrom(items, 0, first, file)
  {
    hide Cleaned;
  }

  lemma IncreasingFromZero(rest: seq<nat>)
    requires Increasing(rest)
    ensures Increasing([0] + Shifted(rest))
  {
    var places := [0] + Shifted(rest);
    assert forall a :: 0 < a < |places| ==> places[a] == rest[a - 1] + 1;
  }

  lemma InCons(at: seq<nat>, i: int)
    ensures i in [0] + at <==> i == 0 || i in at
  {
  }
}
