/** Which rules `_deduplicate_rules` (scripts/run_pinned_semgrep.py:380-425) refuses and which it keeps, said of their
  * fields.
  */
module RuleMeaning {
  import opened Json
  import opened RuleDeduplication
  import opened Wrappers

  ghost predicate HasId(rule: Json, id: string) {
    rule.Obj? && rule.Get("id") == Str(id)
  }

  ghost predicate IsDescription(key: string) {
    key == "id" || key == "message" || key == "metadata" || key == "severity"
  }

  /** The rules agree in every field but those that only describe them. */
  ghost predicate MatchAlike(a: Json, b: Json) {
    && a.Obj? && b.Obj?
    && forall k :: !IsDescription(k) ==>
      (k in a.fields <==> k in b.fields) && (k in a.fields ==> a.fields[k] == b.fields[k])
  }

  lemma MatchAlikeIff(a: Json, b: Json)
    requires a.Obj? && b.Obj?
    ensures MatchAlike(a, b) <==> Matching(a) == Matching(b)
  {
    var f, g := Matching(a).fields, Matching(b).fields;
    assert forall k :: k in f <==> k in a.fields && !IsDescription(k);
    assert forall k :: k in g <==> k in b.fields && !IsDescription(k);
    if MatchAlike(a, b) {
      assert f.Keys == g.Keys;
      assert forall k :: k in f ==> f[k] == g[k];
      assert f == g;
    }
    if Matching(a) == Matching(b) {
      forall k | !IsDescription(k)
        ensures k in a.fields <==> k in b.fields
        ensures k in a.fields ==> a.fields[k] == b.fields[k]
      {
        assert k in a.fields ==> f[k] == a.fields[k];
        assert k in b.fields ==> g[k] == b.fields[k];
        assert k in f <==> k in g;
      }
    }
  }

  /** Every rule has an identifier that is not blank and can be written, and no identifier is that of two different
    * rules.
    */
  ghost predicate Acceptable(rules: seq<Json>, codec: Codec) {
    && (forall rule :: rule in rules ==> codec.encode(rule).Some? && exists id :: HasId(rule, id) && !codec.blank(id))
    && forall a, b, id :: a in rules && b in rules && HasId(a, id) && HasId(b, id) ==> a == b
  }

  lemma UsableIff(rule: Json, codec: Codec)
    ensures Usable(rule, codec) <==> codec.encode(rule).Some? && exists id :: HasId(rule, id) && !codec.blank(id)
    ensures forall id :: HasId(rule, id) <==> IdOf(rule) == Some(id)
  {
  }

  /** Exactly these rules are accepted. */
  lemma AcceptedIff(rules: seq<Json>, codec: Codec)
    requires codec.Injective() && Closed(rules, codec)
    ensures Consistent(rules, codec) <==> Acceptable(rules, codec)
  {
    forall rule
      ensures Usable(rule, codec) <==> codec.encode(rule).Some? && exists id :: HasId(rule, id) && !codec.blank(id)
      ensures forall id :: HasId(rule, id) <==> IdOf(rule) == Some(id)
    {
      UsableIff(rule, codec);
    }
    assert forall i :: 0 <= i < |rules| ==> rules[i] in rules;
    hide IdOf, Fingerprint, Usable, HasId;
    if Consistent(rules, codec) {
      forall a, b, id | a in rules && b in rules && HasId(a, id) && HasId(b, id) ensures a == b {
        OneMeaning(rules, codec, a, b);
      }
    }
    if Acceptable(rules, codec) {
      forall i, j | 0 <= i < j < |rules| ensures !Collide(rules[i], rules[j], codec) {
        OnlyOne(rules, codec, i, j);
      }
    }
  }

  lemma OneMeaning(rules: seq<Json>, codec: Codec, a: Json, b: Json)
    requires codec.Injective() && Consistent(rules, codec) && a in rules && b in rules && IdOf(a) == IdOf(b)
    ensures a == b
  {
    hide IdOf, Fingerprint;
    var i :| 0 <= i < |rules| && rules[i] == a;
    var j :| 0 <= j < |rules| && rules[j] == b;
    assert i < j ==> !Collide(a, b, codec);
    assert j < i ==> !Collide(b, a, codec);
  }

  lemma OnlyOne(rules: seq<Json>, codec: Codec, i: nat, j: nat)
    requires Acceptable(rules, codec) && i < j < |rules|
    ensures !Collide(rules[i], rules[j], codec)
  {
    assert rules[i] in rules && rules[j] in rules;
    UsableIff(rules[i], codec);
    UsableIff(rules[j], codec);
    hide IdOf, HasId, Usable;
    var id :| HasId(rules[i], id);
    assert IdOf(rules[i]) == IdOf(rules[j]) ==> HasId(rules[j], id);
  }

  /** No earlier rule has the identifier or the matching logic of rule i. */
  ghost predicate IsFirst(rules: seq<Json>, i: nat)
    requires i < |rules|
  {
    forall j :: 0 <= j < i ==>
      !MatchAlike(rules[j], rules[i]) && forall id :: !(HasId(rules[j], id) && HasId(rules[i], id))
  }

  lemma SameFingerprint(a: Json, b: Json, codec: Codec)
    requires codec.Injective() && Usable(a, codec) && Usable(b, codec)
    requires Fingerprint(a, codec).Some? && Fingerprint(b, codec).Some?
    ensures MatchAlike(a, b) <==> Fingerprint(a, codec) == Fingerprint(b, codec)
    ensures (exists id :: HasId(a, id) && HasId(b, id)) <==> IdOf(a) == IdOf(b)
  {
    MatchAlikeIff(a, b);
    UsableIff(a, codec);
    UsableIff(b, codec);
    hide MatchAlike, Matching, HasId, IdOf;
    assert IdOf(a) == IdOf(b) ==> HasId(a, IdOf(a).value) && HasId(b, IdOf(a).value);
  }

  lemma KeptFingerprints(rules: seq<Json>, codec: Codec, f: Option<Text>)
    requires Consistent(rules, codec) && codec.Injective()
    ensures FingerprintSeen(Kept(rules, codec), f, codec) <==> FingerprintSeen(rules, f, codec)
  {
    KeptIsSubsequence(rules, codec);
    hide Fingerprint, Kept, Consistent, Places;
    if FingerprintSeen(Kept(rules, codec), f, codec) {
      var k :| 0 <= k < |Kept(rules, codec)| && Fingerprint(Kept(rules, codec)[k], codec) == f;
      assert Fingerprint(rules[Places(rules, codec)[k]], codec) == f;
    }
    if FingerprintSeen(rules, f, codec) {
      var i :| 0 <= i < |rules| && Fingerprint(rules[i], codec) == f;
      EveryRuleIsRepresented(rules, codec, i);
    }
  }

  lemma LastIff(rules: seq<Json>, codec: Codec)
    requires Consistent(rules, codec) && codec.Injective() && rules != []
    ensures
      var n := |rules| - 1;
      IsKept(rules[n], rules[..n], Kept(rules[..n], codec), codec) <==> IsFirst(rules, n)
  {
    var n := |rules| - 1;
    var front := rules[..n];
    ConsistentPrefix(front, [rules[n]], codec) by {
      assert front + [rules[n]] == rules;
    }
    KeptFingerprints(front, codec, Fingerprint(rules[n], codec));
    forall j | 0 <= j < n
      ensures MatchAlike(rules[j], rules[n]) <==> Fingerprint(front[j], codec) == Fingerprint(rules[n], codec)
      ensures (exists id :: HasId(rules[j], id) && HasId(rules[n], id)) <==> IdOf(front[j]) == IdOf(rules[n])
    {
      SameFingerprint(rules[j], rules[n], codec);
    }
    hide MatchAlike, Fingerprint, HasId, IdOf, Kept;
  }

  /** A rule is kept exactly when no earlier one has its identifier or its matching logic. */
  lemma {:induction false} KeptIff(rules: seq<Json>, codec: Codec, i: nat)
    requires Consistent(rules, codec) && codec.Injective() && i < |rules|
    ensures i in Places(rules, codec) <==> IsFirst(rules, i)
    decreases |rules|
  {
    hide IsKept, IsFirst, Consistent, Kept;
    var n := |rules| - 1;
    var front := rules[..n];
    ConsistentPrefix(front, [rules[n]], codec) by {
      assert front + [rules[n]] == rules;
    }
    PlacesBelow(front, codec);
    LastIff(rules, codec);
    if i < n {
      KeptIff(front, codec, i);
      SameFirst(rules, i);
    }
  }

  lemma SameFirst(rules: seq<Json>, i: nat)
    requires i < |rules| - 1
    ensures IsFirst(rules[..|rules| - 1], i) <==> IsFirst(rules, i)
  {
    hide MatchAlike, HasId;
    var front := rules[..|rules| - 1];
    assert forall j :: 0 <= j <= i ==> front[j] == rules[j];
  }

  lemma {:induction false} PlacesBelow(rules: seq<Json>, codec: Codec)
    ensures forall i :: i in Places(rules, codec) ==> i < |rules|
  {
    hide IsKept, Kept;
    if rules != [] {
      PlacesBelow(rules[..|rules| - 1], codec);
    }
  }
}
