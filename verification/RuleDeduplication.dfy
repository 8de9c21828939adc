/** `_deduplicate_rules` (scripts/run_pinned_semgrep.py:380-425): rules that repeat an identifier or the matching logic
  * of an earlier one are dropped, and identifiers with two meanings are refused.
  */
module RuleDeduplication {
  import opened Json
  import opened Wrappers

  type Text = seq<char>

  /** `json.dumps`, None when it raises, and the identifiers that are blank. */
  datatype Codec = Codec(encode: Json -> Option<Text>, blank: string -> bool) {
    /** Different values are written differently. */
    ghost predicate Injective() {
      forall a, b :: encode(a).Some? && encode(a) == encode(b) ==> a == b
    }
  }

  function IdOf(rule: Json): Option<string> {
    if rule.Obj? && rule.Get("id").Str? then Some(rule.Get("id").s) else None
  }

  /** The rule without what does not take part in matching. */
  function Matching(rule: Json): Json {
    if rule.Obj? then Obj(rule.fields - {"id", "message", "metadata", "severity"}) else rule
  }

  function Canonical(rule: Json, codec: Codec): Option<Text> {
    codec.encode(rule)
  }

  function Fingerprint(rule: Json, codec: Codec): Option<Text> {
    codec.encode(Matching(rule))
  }

  predicate Usable(rule: Json, codec: Codec) {
    IdOf(rule).Some? && !codec.blank(IdOf(rule).value) && Canonical(rule, codec).Some?
  }

  // ----- what is kept -----

  predicate IdSeen(rules: seq<Json>, id: Option<string>) {
    exists i :: 0 <= i < |rules| && IdOf(rules[i]) == id
  }

  predicate FingerprintSeen(rules: seq<Json>, fingerprint: Option<Text>, codec: Codec) {
    exists i :: 0 <= i < |rules| && Fingerprint(rules[i], codec) == fingerprint
  }

  predicate IsKept(rule: Json, before: seq<Json>, kept: seq<Json>, codec: Codec) {
    !IdSeen(before, IdOf(rule)) && !FingerprintSeen(kept, Fingerprint(rule, codec), codec)
  }

  function Kept(rules: seq<Json>, codec: Codec): seq<Json> {
    if rules == [] then []
    else
      var n := |rules| - 1;
      var kept := Kept(rules[..n], codec);
      if IsKept(rules[n], rules[..n], kept, codec) then kept + [rules[n]] else kept
  }

  // ----- when the rules are accepted -----

  /** The same identifier with different content. */
  ghost predicate Collide(a: Json, b: Json, codec: Codec) {
    IdOf(a) == IdOf(b) && Canonical(a, codec) != Canonical(b, codec)
  }

  ghost predicate Consistent(rules: seq<Json>, codec: Codec) {
    && (forall i :: 0 <= i < |rules| ==> Usable(rules[i], codec) && Fingerprint(rules[i], codec).Some?)
    && (forall i, j :: 0 <= i < j < |rules| ==> !Collide(rules[i], rules[j], codec))
  }

  /** A rule that can be written can be written without some of its fields. */
  ghost predicate Closed(rules: seq<Json>, codec: Codec) {
    forall i :: 0 <= i < |rules| ==> Canonical(rules[i], codec).Some? ==> Fingerprint(rules[i], codec).Some?
  }

  function Flatten(groups: seq<seq<Json>>): seq<Json> {
    if groups == [] then [] else Flatten(groups[..|groups| - 1]) + groups[|groups| - 1]
  }

  // ----- the loop -----

  datatype Pass = Pass(selected: seq<Json>, byId: map<string, Text>, fingerprints: set<Text>, duplicates: nat)

  /** The identifiers seen, with the canonical text of all their rules. */
  ghost predicate HoldsIds(byId: map<string, Text>, rules: seq<Json>, codec: Codec) {
    && (forall id :: id in byId <==> IdSeen(rules, Some(id)))
    && (forall i :: 0 <= i < |rules| ==> Recorded(byId, rules[i], codec))
  }

  ghost predicate Recorded(byId: map<string, Text>, rule: Json, codec: Codec) {
    IdOf(rule).Some? && IdOf(rule).value in byId && Some(byId[IdOf(rule).value]) == Canonical(rule, codec)
  }

  ghost predicate HoldsFingerprints(fingerprints: set<Text>, kept: seq<Json>, codec: Codec) {
    forall x :: x in fingerprints <==> FingerprintSeen(kept, Some(x), codec)
  }

  /** What the variables of the loop hold after the rules so far. */
  ghost predicate Holds(p: Pass, rules: seq<Json>, codec: Codec) {
    && Consistent(rules, codec) && p.selected == Kept(rules, codec) && p.duplicates + |p.selected| == |rules|
    && HoldsIds(p.byId, rules, codec) && HoldsFingerprints(p.fingerprints, Kept(rules, codec), codec)
  }

  lemma {:induction false} ConsistentPrefix(a: seq<Json>, b: seq<Json>, codec: Codec)
    requires Consistent(a + b, codec)
    ensures Consistent(a, codec)
  {
    hide Usable, Collide, Fingerprint;
    assert forall i :: 0 <= i < |a| ==> (a + b)[i] == a[i];
  }

  /** One more rule is consistent with the others exactly when it passes the tests of the loop. */
  lemma OneMore(byId: map<string, Text>, rules: seq<Json>, rule: Json, codec: Codec)
    requires HoldsIds(byId, rules, codec) && Consistent(rules, codec)
    ensures Consistent(rules + [rule], codec) <==>
      && Usable(rule, codec) && Fingerprint(rule, codec).Some?
      && (IdOf(rule).value in byId ==> Some(byId[IdOf(rule).value]) == Canonical(rule, codec))
  {
    hide Canonical, Fingerprint, IdOf;
    var all := rules + [rule];
    assert forall i :: 0 <= i < |rules| ==> all[i] == rules[i];
    if Consistent(all, codec) {
      assert Usable(all[|rules|], codec);
      var id := IdOf(rule).value;
      if id in byId {
        var i :| 0 <= i < |rules| && IdOf(rules[i]) == Some(id);
        assert Recorded(byId, rules[i], codec);
        assert !Collide(all[i], all[|rules|], codec);
      }
    }
    if Usable(rule, codec) && Fingerprint(rule, codec).Some?
      && (IdOf(rule).value in byId ==> Some(byId[IdOf(rule).value]) == Canonical(rule, codec)) {
      forall i, j | 0 <= i < j < |all| ensures !Collide(all[i], all[j], codec) {
        if j < |rules| {
          assert !Collide(rules[i], rules[j], codec);
        } else {
          assert Recorded(byId, rules[i], codec);
        }
      }
    }
  }

  lemma SeenStep(rules: seq<Json>, rule: Json, id: Option<string>)
    ensures IdSeen(rules + [rule], id) <==> IdSeen(rules, id) || IdOf(rule) == id
  {
    hide IdOf;
    assert (rules + [rule])[|rules|] == rule;
    if IdSeen(rules, id) {
      var i :| 0 <= i < |rules| && IdOf(rules[i]) == id;
      assert IdOf((rules + [rule])[i]) == id;
    }
  }

  lemma FingerprintStep(kept: seq<Json>, rule: Json, f: Option<Text>, codec: Codec)
    ensures FingerprintSeen(kept + [rule], f, codec) <==>
      FingerprintSeen(kept, f, codec) || Fingerprint(rule, codec) == f
  {
    hide Fingerprint;
    assert (kept + [rule])[|kept|] == rule;
    if FingerprintSeen(kept, f, codec) {
      var i :| 0 <= i < |kept| && Fingerprint(kept[i], codec) == f;
      assert Fingerprint((kept + [rule])[i], codec) == f;
    }
  }

  lemma KeptStep(rules: seq<Json>, rule: Json, codec: Codec)
    ensures Kept(rules + [rule], codec) == if IsKept(rule, rules, Kept(rules, codec), codec)
      then Kept(rules, codec) + [rule] else Kept(rules, codec)
  {
    hide IsKept;
    assert (rules + [rule])[..|rules|] == rules;
  }

  lemma IdsStep(byId: map<string, Text>, rules: seq<Json>, rule: Json, codec: Codec)
    requires HoldsIds(byId, rules, codec) && Usable(rule, codec)
    requires IdOf(rule).value in byId ==> Some(byId[IdOf(rule).value]) == Canonical(rule, codec)
    ensures HoldsIds(byId[IdOf(rule).value := Canonical(rule, codec).value], rules + [rule], codec)
  {
    hide IdOf, Canonical, IdSeen;
    var now, all := byId[IdOf(rule).value := Canonical(rule, codec).value], rules + [rule];
    forall id ensures id in now <==> IdSeen(all, Some(id)) {
      SeenStep(rules, rule, Some(id));
    }
    forall i | 0 <= i < |all| ensures Recorded(now, all[i], codec) {
      assert i < |rules| ==> Recorded(byId, rules[i], codec);
    }
  }

  lemma FingerprintsStep(fingerprints: set<Text>, kept: seq<Json>, rule: Json, codec: Codec)
    requires HoldsFingerprints(fingerprints, kept, codec) && Fingerprint(rule, codec).Some?
    ensures HoldsFingerprints(fingerprints + {Fingerprint(rule, codec).value}, kept + [rule], codec)
  {
    hide Fingerprint, FingerprintSeen;
    var all := kept + [rule];
    forall x ensures x in fingerprints + {Fingerprint(rule, codec).value} <==> FingerprintSeen(all, Some(x), codec) {
      FingerprintStep(kept, rule, Some(x), codec);
    }
  }

  /** One round of the loop. */
  method Add(p: Pass, ghost rules: seq<Json>, rule: Json, codec: Codec) returns (r: Option<Pass>)
    requires Holds(p, rules, codec) && (Canonical(rule, codec).Some? ==> Fingerprint(rule, codec).Some?)
    ensures r.Some? <==> Consistent(rules + [rule], codec)
    ensures r.Some? ==> Holds(r.value, rules + [rule], codec)
  {
    hide IdOf, Canonical, Fingerprint, Kept, HoldsIds, Consistent, IdSeen, FingerprintSeen;
    OneMore(p.byId, rules, rule, codec);
    KeptStep(rules, rule, codec);
    if IdOf(rule).None? || codec.blank(IdOf(rule).value) || Canonical(rule, codec).None? {
      return None;
    }
    var id, canonical := IdOf(rule).value, Canonical(rule, codec).value;
    IdKnown(p.byId, rules, id, codec);
    if id in p.byId {
      if p.byId[id] != canonical {
        return None;
      }
      IdsStep(p.byId, rules, rule, codec);
      assert p.byId[id := canonical] == p.byId;
      return Some(p.(duplicates := p.duplicates + 1));
    }
    IdsStep(p.byId, rules, rule, codec);
    var byId := p.byId[id := canonical];
    var fingerprint := Fingerprint(rule, codec).value;
    if fingerprint in p.fingerprints {
      return Some(p.(byId := byId, duplicates := p.duplicates + 1));
    }
    FingerprintsStep(p.fingerprints, p.selected, rule, codec);
    r := Some(Pass(p.selected + [rule], byId, p.fingerprints + {fingerprint}, p.duplicates));
  }

  lemma IdKnown(byId: map<string, Text>, rules: seq<Json>, id: string, codec: Codec)
    requires HoldsIds(byId, rules, codec)
    ensures id in byId <==> IdSeen(rules, Some(id))
  {
  }

  lemma HoldsConsistent(p: Pass, rules: seq<Json>, codec: Codec)
    requires Holds(p, rules, codec)
    ensures Consistent(rules, codec) && p.selected == Kept(rules, codec) && p.duplicates + |p.selected| == |rules|
  {
  }

  lemma LongerPrefix(before: seq<Json>, group: seq<Json>, j: nat, codec: Codec)
    requires j < |group|
    ensures before + group[..j] + [group[j]] == before + group[..j + 1]
    ensures Consistent(before + group, codec) ==> Consistent(before + group[..j + 1], codec)
  {
    assert before + group == before + group[..j + 1] + group[j + 1..];
    if Consistent(before + group, codec) {
      ConsistentPrefix(before + group[..j + 1], group[j + 1..], codec);
    }
    hide Consistent;
  }

  /** The inner loop. */
  method AddGroup(start: Pass, ghost before: seq<Json>, group: seq<Json>, codec: Codec) returns (r: Option<Pass>)
    requires Holds(start, before, codec) && Closed(group, codec)
    ensures r.Some? <==> Consistent(before + group, codec)
    ensures r.Some? ==> Holds(r.value, before + group, codec)
  {
    hide Holds, Consistent, Canonical, Fingerprint;
    var p := start;
    assert before + group[..0] == before;
    for j := 0 to |group|
      invariant Holds(p, before + group[..j], codec)
    {
      LongerPrefix(before, group, j, codec);
      var added := Add(p, before + group[..j], group[j], codec);
      if added.None? {
        return None;
      }
      p := added.value;
    }
    assert group[..|group|] == group;
    HoldsConsistent(p, before + group, codec);
    r := Some(p);
  }

  datatype Deduplicated = Deduplicated(selected: seq<Json>, duplicates: nat)

  /** `_deduplicate_rules` */
  method Deduplicate(groups: seq<seq<Json>>, codec: Codec) returns (r: Option<Deduplicated>)
    requires Closed(Flatten(groups), codec)
    ensures r.Some? <==> Consistent(Flatten(groups), codec)
    ensures r.Some? ==>
      r.value.selected == Kept(Flatten(groups), codec) && r.value.duplicates + |r.value.selected| == |Flatten(groups)|
  {
    hide Holds, Consistent, Flatten, Closed, Kept;
    var p := Pass([], map[], {}, 0);
    assert groups[..0] == [];
    Start(codec);
    for i := 0 to |groups|
      invariant Holds(p, Flatten(groups[..i]), codec)
    {
      GroupPrefix(groups, i, codec);
      var added := AddGroup(p, Flatten(groups[..i]), groups[i], codec);
      if added.None? {
        return None;
      }
      p := added.value;
    }
    assert groups[..|groups|] == groups;
    HoldsConsistent(p, Flatten(groups), codec);
    r := Some(Deduplicated(p.selected, p.duplicates));
  }

  lemma Start(codec: Codec)
    ensures Holds(Pass([], map[], {}, 0), [], codec) && Flatten([]) == []
  {
  }

  lemma FlattenStep(groups: seq<seq<Json>>, i: nat)
    requires i < |groups|
    ensures Flatten(groups[..i + 1]) == Flatten(groups[..i]) + groups[i]
  {
    assert groups[..i + 1][..i] == groups[..i];
  }

  lemma {:induction false} FlattenPrefix(groups: seq<seq<Json>>, i: nat)
    requires i <= |groups|
    ensures |Flatten(groups[..i])| <= |Flatten(groups)|
      && Flatten(groups)[..|Flatten(groups[..i])|] == Flatten(groups[..i])
    decreases |groups| - i
  {
    if i == |groups| {
      assert groups[..i] == groups;
    } else {
      FlattenStep(groups, i);
      FlattenPrefix(groups, i + 1);
      assert Flatten(groups[..i + 1])[..|Flatten(groups[..i])|] == Flatten(groups[..i]);
    }
  }

  /** What is refused with one more group is refused with all. */
  lemma GroupPrefix(groups: seq<seq<Json>>, i: nat, codec: Codec)
    requires i < |groups| && Closed(Flatten(groups), codec)
    ensures Flatten(groups[..i + 1]) == Flatten(groups[..i]) + groups[i]
    ensures Closed(groups[i], codec)
    ensures Consistent(Flatten(groups), codec) ==> Consistent(Flatten(groups[..i + 1]), codec)
  {
    hide Canonical, Fingerprint, Usable, Collide;
    FlattenStep(groups, i);
    FlattenPrefix(groups, i + 1);
    var all, done := Flatten(groups), Flatten(groups[..i + 1]);
    assert all == done + all[|done|..] by {
      assert all[..|done|] == done;
    }
    forall j | 0 <= j < |groups[i]| ensures all[|Flatten(groups[..i])| + j] == groups[i][j] {
      assert done[|Flatten(groups[..i])| + j] == groups[i][j];
    }
    if Consistent(all, codec) {
      ConsistentPrefix(done, all[|done|..], codec);
    }
  }

  // ----- what is kept -----

  /** The kept rules stand in the input at these places, in this order. */
  function Places(rules: seq<Json>, codec: Codec): seq<nat> {
    if rules == [] then []
    else
      var n := |rules| - 1;
      var places := Places(rules[..n], codec);
      if IsKept(rules[n], rules[..n], Kept(rules[..n], codec), codec) then places + [n] else places
  }

  /** The kept rules are a subsequence of the input. */
  lemma {:induction false} KeptIsSubsequence(rules: seq<Json>, codec: Codec)
    ensures |Places(rules, codec)| == |Kept(rules, codec)| <= |rules|
    ensures forall k :: 0 <= k < |Kept(rules, codec)| ==>
      Places(rules, codec)[k] < |rules| && rules[Places(rules, codec)[k]] == Kept(rules, codec)[k]
    ensures forall k, l :: 0 <= k < l < |Kept(rules, codec)| ==> Places(rules, codec)[k] < Places(rules, codec)[l]
  {
    hide IsKept;
    if rules != [] {
      KeptIsSubsequence(rules[..|rules| - 1], codec);
    }
  }

  lemma {:induction false} KeptIdsSeen(rules: seq<Json>, codec: Codec, id: Option<string>)
    ensures IdSeen(Kept(rules, codec), id) ==> IdSeen(rules, id)
  {
    KeptIsSubsequence(rules, codec);
    hide IdOf, Kept, Places;
    if IdSeen(Kept(rules, codec), id) {
      var k :| 0 <= k < |Kept(rules, codec)| && IdOf(Kept(rules, codec)[k]) == id;
      assert IdOf(rules[Places(rules, codec)[k]]) == id;
    }
  }

  /** No two kept rules share their identifier or their matching logic. */
  lemma {:induction false} KeptAreDistinct(rules: seq<Json>, codec: Codec)
    ensures forall k, l :: 0 <= k < l < |Kept(rules, codec)| ==>
      && IdOf(Kept(rules, codec)[k]) != IdOf(Kept(rules, codec)[l])
      && Fingerprint(Kept(rules, codec)[k], codec) != Fingerprint(Kept(rules, codec)[l], codec)
  {
    if rules != [] {
      var n := |rules| - 1;
      KeptAreDistinct(rules[..n], codec);
      KeptIdsSeen(rules[..n], codec, IdOf(rules[n]));
      hide IdOf, Fingerprint;
    }
  }

  /** The matching logic of every rule is that of a kept one. */
  lemma {:induction false} EveryRuleIsRepresented(rules: seq<Json>, codec: Codec, i: nat)
    requires Consistent(rules, codec) && codec.Injective() && i < |rules|
    ensures FingerprintSeen(Kept(rules, codec), Fingerprint(rules[i], codec), codec)
    decreases |rules|
  {
    var n := |rules| - 1;
    var front := rules[..n];
    assert front + [rules[n]] == rules;
    ConsistentPrefix(front, [rules[n]], codec);
    KeptStep(front, rules[n], codec);
    if i < n {
      EveryRuleIsRepresented(front, codec, i);
      FingerprintStep(Kept(front, codec), rules[n], Fingerprint(rules[i], codec), codec);
    } else if IdSeen(front, IdOf(rules[n])) {
      var j :| 0 <= j < n && IdOf(front[j]) == IdOf(rules[n]);
      assert !Collide(rules[j], rules[n], codec);
      assert Usable(rules[j], codec);
      assert front[j] == rules[n];
      EveryRuleIsRepresented(front, codec, j);
      FingerprintStep(Kept(front, codec), rules[n], Fingerprint(rules[n], codec), codec);
    } else {
      FingerprintStep(Kept(front, codec), rules[n], Fingerprint(rules[n], codec), codec);
    }
    hide IdOf, Fingerprint, Canonical, Usable;
  }

  lemma {:induction false} DistinctAreKept(rules: seq<Json>, codec: Codec)
    requires forall k, l :: 0 <= k < l < |rules| ==>
      IdOf(rules[k]) != IdOf(rules[l]) && Fingerprint(rules[k], codec) != Fingerprint(rules[l], codec)
    ensures Kept(rules, codec) == rules
  {
    hide IdOf, Fingerprint;
    if rules != [] {
      var n := |rules| - 1;
      DistinctAreKept(rules[..n], codec);
      assert rules[..n] + [rules[n]] == rules;
    }
  }

  /** A second pass accepts the kept rules and removes none of them. */
  lemma SecondPassKeepsAll(rules: seq<Json>, codec: Codec)
    requires Consistent(rules, codec)
    ensures Consistent(Kept(rules, codec), codec) && Kept(Kept(rules, codec), codec) == Kept(rules, codec)
  {
    KeptAreDistinct(rules, codec);
    KeptIsSubsequence(rules, codec);
    DistinctAreKept(Kept(rules, codec), codec);
    hide IdOf, Fingerprint, Canonical, Kept, Places, Usable;
    var kept := Kept(rules, codec);
    forall k | 0 <= k < |kept| ensures Usable(kept[k], codec) && Fingerprint(kept[k], codec).Some? {
      assert rules[Places(rules, codec)[k]] == kept[k];
    }
  }
}
