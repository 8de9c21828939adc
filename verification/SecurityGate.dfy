/** `verify_security_dependency_gate` (scripts/verify_release_project.py): the edge-by-edge checks of the
  * Version 1 security dependency policy, over Project issues that have already been parsed.
  */
module SecurityGate {
  import opened Digraph
  import opened Sorting
  import opened DependencyCycles
  import opened TopologicalOrder
  import opened Project
  import opened Wrappers

  datatype Requirement = Requirement(number: int, iteration: string, owner: string)

  datatype Policy = Policy(
    repository: string,
    iterationOrder: seq<string>,
    requiredIssues: seq<Requirement>,
    requiredDependencies: seq<Dependency>,
    consumer: int)

  /** `_iteration_key` and `str.casefold`. */
  datatype Text = Text(iterationKey: string -> Option<string>, casefold: string -> string)

  datatype Code =
    | ProjectResponse | ConsumerMissing | IssueMissing | FieldsMissing | IterationUnknown | IterationMismatch
    | PaginationIncomplete | OwnerMissing | DependencyCycle | DependencyReversed | DependencyMissing
    | IterationInverted | PrematureClosure

  /** The code of a SecurityDependencyVerificationError and the issues it names. */
  datatype Verdict<+T> = Passed(value: T) | Failed(code: Code, issues: set<int>)

  type Issues = map<int, ProjectIssue>

  // ----- collecting the issues -----

  /** The first n issues have pairwise different item ids. */
  ghost predicate DistinctItems(issues: seq<ProjectIssue>, n: nat)
    requires n <= |issues|
  {
    forall i, j :: 0 <= i < j < n ==> issues[i].itemId != issues[j].itemId
  }

  ghost predicate DistinctNumbers(issues: seq<ProjectIssue>, n: nat, repository: string)
    requires n <= |issues|
  {
    forall i, j :: 0 <= i < j < n && issues[i].repository == issues[j].repository == repository
                   ==> issues[i].number != issues[j].number
  }

  /** byNumber holds those of the first n issues that belong to the repository, under their numbers. */
  ghost predicate Indexes(byNumber: Issues, issues: seq<ProjectIssue>, n: nat, repository: string)
    requires n <= |issues|
  {
    && (forall k :: k in byNumber ==> HeldBy(byNumber[k], issues, n) && byNumber[k].number == k
                                      && byNumber[k].repository == repository)
    && (forall i :: 0 <= i < n && issues[i].repository == repository ==> issues[i].number in byNumber)
  }

  ghost predicate HeldBy(issue: ProjectIssue, issues: seq<ProjectIssue>, n: nat)
    requires n <= |issues|
  {
    exists i :: 0 <= i < n && issues[i] == issue
  }

  lemma IndexesStep(byNumber: Issues, issues: seq<ProjectIssue>, i: nat, repository: string)
    requires i < |issues| && Indexes(byNumber, issues, i, repository)
    ensures issues[i].repository != repository ==> Indexes(byNumber, issues, i + 1, repository)
    ensures issues[i].repository == repository && issues[i].number in byNumber ==>
      Indexes(byNumber, issues, i + 1, repository) && !DistinctNumbers(issues, i + 1, repository)
    ensures issues[i].repository == repository && issues[i].number !in byNumber ==>
      Indexes(byNumber[issues[i].number := issues[i]], issues, i + 1, repository)
  {
    assert forall k :: k in byNumber && HeldBy(byNumber[k], issues, i) ==> HeldBy(byNumber[k], issues, i + 1);
    assert HeldBy(issues[i], issues, i + 1);
    if issues[i].number in byNumber && issues[i].repository == repository {
      var earlier := byNumber[issues[i].number];
      assert HeldBy(earlier, issues, i);
      var j :| 0 <= j < i && issues[j] == earlier;
    }
  }

  /** `_security_project_issues` */
  method CollectIssues(issues: seq<ProjectIssue>, repository: string) returns (r: Verdict<Issues>)
    ensures r.Passed? <==> DistinctItems(issues, |issues|) && DistinctNumbers(issues, |issues|, repository)
    ensures r.Passed? ==> Indexes(r.value, issues, |issues|, repository)
    ensures r.Failed? ==> r.code == ProjectResponse
  {
    var itemIds, byNumber: Issues, duplicates := {}, map[], {};
    for i := 0 to |issues|
      invariant itemIds == set k | 0 <= k < i :: issues[k].itemId
      invariant DistinctItems(issues, i)
      invariant Indexes(byNumber, issues, i, repository)
      invariant duplicates == {} <==> DistinctNumbers(issues, i, repository)
    {
      var issue := issues[i];
      if issue.itemId in itemIds {
        assert !DistinctItems(issues, i + 1);
        return Failed(ProjectResponse, {issue.number});
      }
      itemIds := itemIds + {issue.itemId};
      IndexesStep(byNumber, issues, i, repository);
      if issue.repository == repository {
        if issue.number in byNumber {
          duplicates := duplicates + {issue.number};
        } else {
          byNumber := byNumber[issue.number := issue];
        }
      }
    }
    if duplicates != {} {
      return Failed(ProjectResponse, duplicates);
    }
    return Passed(byNumber);
  }

  // ----- iterations and states -----

  function Checked(policy: Policy): set<int> {
    (set r | r in policy.requiredIssues :: r.number)
    + (set d | d in policy.requiredDependencies :: d.blocked)
    + (set d | d in policy.requiredDependencies :: d.blockedBy)
    + {policy.consumer}
  }

  /** `{iteration: position for position, iteration in enumerate(order)}` */
  function Positions(order: seq<string>): map<string, int> {
    if order == [] then map[] else Positions(order[..|order| - 1])[order[|order| - 1] := |order| - 1]
  }

  predicate FieldsPresent(issue: ProjectIssue) {
    && ITERATION !in issue.fieldErrors && ITERATION in issue.fields
    && STATUS !in issue.fieldErrors && STATUS in issue.fields
  }

  /** The issue's iteration, when its title names one of the policy's iterations. */
  function IterationOf(issue: ProjectIssue, positions: map<string, int>, text: Text): Option<string> {
    if ITERATION !in issue.fields then None
    else
      var key := text.iterationKey(issue.fields[ITERATION]);
      if key.Some? && key.value in positions then key else None
  }

  predicate ValidState(state: string) {
    state == OPEN || state == CLOSED
  }

  ghost predicate Placed(issue: ProjectIssue, positions: map<string, int>, text: Text) {
    FieldsPresent(issue) && IterationOf(issue, positions, text).Some? && ValidState(issue.state)
  }

  method ReadIterations(byNumber: Issues, checked: set<int>, positions: map<string, int>, text: Text)
    returns (r: Verdict<map<int, string>>)
    requires checked <= byNumber.Keys
    ensures r.Passed? <==> forall n :: n in checked ==> Placed(byNumber[n], positions, text)
    ensures r.Passed? ==> r.value.Keys == checked
    ensures r.Passed? ==> forall n :: n in checked ==> IterationOf(byNumber[n], positions, text) == Some(r.value[n])
    ensures r.Failed? ==> r.code in {FieldsMissing, IterationUnknown, ProjectResponse}
  {
    var actual: map<int, string>, invalidIterations, invalidStates := map[], {}, {};
    var pending := checked;
    while pending != {}
      invariant pending <= checked
      invariant actual.Keys + invalidIterations == checked - pending && invalidStates <= checked - pending
      invariant forall n :: n in checked - pending ==>
        Read(byNumber[n], positions, text, n, actual, invalidIterations, invalidStates)
      decreases pending
    {
      var number := Least(pending);
      pending := pending - {number};
      var issue := byNumber[number];
      if !FieldsPresent(issue) {
        return Failed(FieldsMissing, {number});
      }
      var iteration := text.iterationKey(issue.fields[ITERATION]);
      if iteration.None? || iteration.value !in positions {
        invalidIterations := invalidIterations + {number};
      } else {
        actual := actual[number := iteration.value];
      }
      if !ValidState(issue.state) {
        invalidStates := invalidStates + {number};
      }
    }
    if invalidIterations != {} {
      return Failed(IterationUnknown, invalidIterations);
    }
    if invalidStates != {} {
      return Failed(ProjectResponse, invalidStates);
    }
    return Passed(actual);
  }

  /** What the loop has recorded about issue n. */
  ghost predicate Read(issue: ProjectIssue, positions: map<string, int>, text: Text, n: int,
                       actual: map<int, string>, invalidIterations: set<int>, invalidStates: set<int>)
  {
    && FieldsPresent(issue)
    && (n in invalidIterations <==> IterationOf(issue, positions, text).None?)
    && (n in actual ==> IterationOf(issue, positions, text) == Some(actual[n]))
    && (n in invalidStates <==> !ValidState(issue.state))
  }

  // ----- the dependency edges -----

  ghost predicate SameBlocker(a: Blocker, b: Blocker) {
    a.Blocker? && b.Blocker? && a.number == b.number && a.repository == b.repository
  }

  ghost predicate InScope(b: Blocker, policy: Policy, checked: set<int>) {
    b.Blocker? && b.repository == policy.repository && b.number in checked
  }

  /** The blockers of one issue parse, are listed once each, and agree with the Project about their state. */
  ghost predicate Trusted(byNumber: Issues, policy: Policy, checked: set<int>, blockers: seq<Blocker>) {
    && (forall b :: b in blockers ==> b.Blocker? && ValidState(b.state))
    && (forall i, j :: 0 <= i < j < |blockers| ==> !SameBlocker(blockers[i], blockers[j]))
    && (forall b :: b in blockers && InScope(b, policy, checked) && b.number in byNumber
                    ==> byNumber[b.number].state == b.state)
  }

  ghost function EdgesOf(blocked: int, blockers: seq<Blocker>, policy: Policy, checked: set<int>): set<Dependency> {
    set b | b in blockers && InScope(b, policy, checked) :: Dependency(blocked, b.number)
  }

  /** The dependencies between checked issues that the Project reports. */
  ghost function ActualEdges(byNumber: Issues, policy: Policy): set<Dependency> {
    var checked := Checked(policy);
    set n, e | n in checked && n in byNumber && e in EdgesOf(n, byNumber[n].blockers, policy, checked) :: e
  }

  datatype Gathered = Gathered(edges: set<Dependency>, duplicates: set<int>, inconsistent: set<int>)

  /** `(repository, blocked_by)` */
  function Key(b: Blocker): Blocker
    requires b.Blocker?
  {
    b.(state := "")
  }

  ghost function KeysOf(blockers: seq<Blocker>): set<Blocker> {
    set b | b in blockers && b.Blocker? :: Key(b)
  }

  lemma TrustedStep(byNumber: Issues, policy: Policy, checked: set<int>, front: seq<Blocker>, b: Blocker)
    ensures Trusted(byNumber, policy, checked, front + [b]) <==>
      && Trusted(byNumber, policy, checked, front)
      && b.Blocker? && ValidState(b.state) && Key(b) !in KeysOf(front)
      && (InScope(b, policy, checked) && b.number in byNumber ==> byNumber[b.number].state == b.state)
  {
    var all := front + [b];
    if Trusted(byNumber, policy, checked, all) {
      assert b in all;
      assert forall a :: a in front ==> a in all;
      forall i, j | 0 <= i < j < |front|
        ensures !SameBlocker(front[i], front[j])
      {
        assert all[i] == front[i] && all[j] == front[j];
      }
      if Key(b) in KeysOf(front) {
        var i :| 0 <= i < |front| && front[i].Blocker? && Key(front[i]) == Key(b);
        assert SameBlocker(all[i], all[|front|]);
      }
    }
  }

  lemma EdgesStep(blocked: int, front: seq<Blocker>, b: Blocker, policy: Policy, checked: set<int>)
    ensures b.Blocker? ==> KeysOf(front + [b]) == KeysOf(front) + {Key(b)}
    ensures EdgesOf(blocked, front + [b], policy, checked) ==
      EdgesOf(blocked, front, policy, checked) + if InScope(b, policy, checked) then {Dependency(blocked, b.number)}
        else {}
    ensures b.Blocker? && InScope(b, policy, checked) && Key(b) in KeysOf(front) ==>
      Dependency(blocked, b.number) in EdgesOf(blocked, front, policy, checked)
  {
    if b.Blocker? && InScope(b, policy, checked) && Key(b) in KeysOf(front) {
      var a :| a in front && a.Blocker? && Key(a) == Key(b);
      assert a.number == Key(a).number && a.repository == Key(a).repository;
      assert InScope(a, policy, checked);
    }
  }

  /** The pass over the blockers of one issue. */
  method ReadBlockers(byNumber: Issues, policy: Policy, checked: set<int>, blocked: int)
    returns (r: Verdict<Gathered>)
    requires checked <= byNumber.Keys && blocked in checked
    ensures r.Passed? ==> r.value.edges == EdgesOf(blocked, byNumber[blocked].blockers, policy, checked)
    ensures Trusted(byNumber, policy, checked, byNumber[blocked].blockers) <==>
      r.Passed? && r.value.duplicates == {} && r.value.inconsistent == {}
    ensures r.Failed? ==> r.code == ProjectResponse
  {
    hide Trusted, EdgesOf, KeysOf;
    var blockers := byNumber[blocked].blockers;
    var seen: set<Blocker>, out: Gathered := {}, Gathered({}, {}, {});
    NothingRead(byNumber, policy, checked, blocked);
    for i := 0 to |blockers|
      invariant seen == KeysOf(blockers[..i])
      invariant out.edges == EdgesOf(blocked, blockers[..i], policy, checked)
      invariant out.duplicates == {} && out.inconsistent == {} <==> Trusted(byNumber, policy, checked, blockers[..i])
    {
      var blocker := blockers[i];
      assert blockers[..i + 1] == blockers[..i] + [blocker];
      TrustedStep(byNumber, policy, checked, blockers[..i], blocker);
      EdgesStep(blocked, blockers[..i], blocker, policy, checked);
      if blocker.Malformed? {
        UntrustedPrefix(byNumber, policy, checked, blockers, i + 1);
        return Failed(ProjectResponse, {blocked});
      }
      if !ValidState(blocker.state) {
        UntrustedPrefix(byNumber, policy, checked, blockers, i + 1);
        return Failed(ProjectResponse, {blocked, blocker.number});
      }
      if Key(blocker) in seen {
        out := out.(duplicates := out.duplicates + {blocked, blocker.number});
        continue;
      }
      seen := seen + {Key(blocker)};
      if blocker.repository != policy.repository || blocker.number !in checked {
        continue;
      }
      out := out.(edges := out.edges + {Dependency(blocked, blocker.number)});
      if byNumber[blocker.number].state != blocker.state {
        out := out.(inconsistent := out.inconsistent + {blocked, blocker.number});
      }
    }
    assert blockers[..|blockers|] == blockers;
    return Passed(out);
  }

  lemma NothingRead(byNumber: Issues, policy: Policy, checked: set<int>, blocked: int)
    ensures KeysOf([]) == {} && EdgesOf(blocked, [], policy, checked) == {}
    ensures Trusted(byNumber, policy, checked, [])
  {
  }

  lemma UntrustedPrefix(byNumber: Issues, policy: Policy, checked: set<int>, blockers: seq<Blocker>, n: nat)
    requires n <= |blockers| && !Trusted(byNumber, policy, checked, blockers[..n])
    ensures !Trusted(byNumber, policy, checked, blockers)
  {
    assert forall b :: b in blockers[..n] ==> b in blockers;
  }

  ghost predicate AllTrusted(byNumber: Issues, policy: Policy, scope: set<int>) {
    forall n :: n in scope && n in byNumber ==> Trusted(byNumber, policy, Checked(policy), byNumber[n].blockers)
  }

  /** The pass over all checked issues. */
  method GatherEdges(byNumber: Issues, policy: Policy, checked: set<int>) returns (r: Verdict<set<Dependency>>)
    requires checked == Checked(policy) <= byNumber.Keys
    ensures r.Passed? <==> AllTrusted(byNumber, policy, checked)
    ensures r.Passed? ==> r.value == ActualEdges(byNumber, policy)
    ensures r.Failed? ==> r.code == ProjectResponse
  {
    hide Trusted, EdgesOf;
    var out := Gathered({}, {}, {});
    var pending := checked;
    while pending != {}
      invariant pending <= checked
      invariant out.edges == set n, e | n in checked - pending
        && e in EdgesOf(n, byNumber[n].blockers, policy, checked) :: e
      invariant out.duplicates == {} && out.inconsistent == {} <==> AllTrusted(byNumber, policy, checked - pending)
      decreases pending
    {
      var blocked := Least(pending);
      ghost var before := checked - pending;
      pending := pending - {blocked};
      assert checked - pending == before + {blocked};
      var one := ReadBlockers(byNumber, policy, checked, blocked);
      if one.Failed? {
        return Failed(one.code, one.issues);
      }
      out := Gathered(out.edges + one.value.edges, out.duplicates + one.value.duplicates,
                      out.inconsistent + one.value.inconsistent);
    }
    assert checked - pending == checked;
    if out.duplicates != {} || out.inconsistent != {} {
      return Failed(ProjectResponse, out.duplicates + out.inconsistent);
    }
    return Passed(out.edges);
  }

  // ----- the gate -----

  ghost function RequiredEdges(policy: Policy): set<Dependency> {
    set d | d in policy.requiredDependencies
  }

  predicate Inverted(e: Dependency, iteration: map<int, string>, positions: map<string, int>)
    requires e.blocked in iteration && e.blockedBy in iteration
    requires iteration[e.blocked] in positions && iteration[e.blockedBy] in positions
  {
    positions[iteration[e.blockedBy]] > positions[iteration[e.blocked]]
  }

  predicate Premature(e: Dependency, byNumber: Issues)
    requires e.blocked in byNumber && e.blockedBy in byNumber
  {
    byNumber[e.blocked].state == CLOSED && byNumber[e.blockedBy].state != CLOSED
  }

  predicate OwnedBy(issue: ProjectIssue, owner: string, text: Text) {
    exists o :: o in issue.owners && text.casefold(o) == text.casefold(owner)
  }

  /** Every checked issue has an iteration of the policy. */
  ghost predicate Located(edges: set<Dependency>, byNumber: Issues, iteration: map<int, string>, positions: map<string,
                          int>) {
    && Ends(edges) <= iteration.Keys <= byNumber.Keys
    && forall n :: n in iteration ==> iteration[n] in positions
  }

  /** The edges whose blocker belongs to a later iteration. */
  ghost function InvertedEdges(edges: set<Dependency>, byNumber: Issues, iteration: map<int, string>,
                               positions: map<string, int>): set<Dependency>
    requires Located(edges, byNumber, iteration, positions)
  {
    set e | e in edges && Within(e, edges) && Inverted(e, iteration, positions)
  }

  /** The edges whose blocked issue is closed while its blocker is not. */
  ghost function PrematureEdges(edges: set<Dependency>, byNumber: Issues, iteration: map<int, string>,
                                positions: map<string, int>): set<Dependency>
    requires Located(edges, byNumber, iteration, positions)
  {
    set e | e in edges && Within(e, edges) && Premature(e, byNumber)
  }

  ghost predicate Within(e: Dependency, edges: set<Dependency>) {
    e.blocked in Ends(edges) && e.blockedBy in Ends(edges)
  }

  lemma NoneCyclic(g: Graph<int>, nodes: seq<int>)
    requires forall n :: n in nodes <==> Cyclic(g, n)
    ensures nodes == [] <==> Acyclic(g)
  {
    if nodes != [] {
      assert nodes[0] in nodes && Cyclic(g, nodes[0]);
    } else {
      forall n
        ensures !Cyclic(g, n)
      {
        assert n !in nodes;
      }
    }
  }

  /** Every required dependency is there, and none the other way round. */
  method CheckRequired(edges: set<Dependency>, policy: Policy) returns (r: Verdict<()>)
    ensures r.Passed? <==> RequiredEdges(policy) <= edges
    ensures r.Failed? ==>
      match r.code
      case DependencyReversed =>
        r.issues == Ends(set e | e in RequiredEdges(policy) - edges && Dependency(e.blockedBy, e.blocked) in edges)
      case DependencyMissing =>
        && r.issues == Ends(RequiredEdges(policy) - edges)
        && forall e :: e in RequiredEdges(policy) - edges ==> Dependency(e.blockedBy, e.blocked) !in edges
      case _ => false
  {
    hide Ends;
    var required := set d | d in policy.requiredDependencies;
    assert required == RequiredEdges(policy);
    var reversed := set e | e in required && e !in edges && Dependency(e.blockedBy, e.blocked) in edges;
    if reversed != {} {
      assert reversed == set e | e in required - edges && Dependency(e.blockedBy, e.blocked) in edges;
      return Failed(DependencyReversed, Ends(reversed));
    }
    var missing := required - edges;
    NothingMissing(required, edges);
    if missing != {} {
      assert forall e :: e in missing ==> e !in reversed;
      return Failed(DependencyMissing, Ends(missing));
    }
    return Passed(());
  }

  /** No blocker is in a later iteration, and no closed issue has an open blocker. */
  method CheckOrder(edges: set<Dependency>, byNumber: Issues, iteration: map<int, string>, positions: map<string, int>)
    returns (r: Verdict<()>)
    requires Located(edges, byNumber, iteration, positions)
    ensures r.Passed? <==>
      && InvertedEdges(edges, byNumber, iteration, positions) == {}
      && PrematureEdges(edges, byNumber, iteration, positions) == {}
    ensures r.Failed? ==>
      match r.code
      case IterationInverted => r.issues == Ends(InvertedEdges(edges, byNumber, iteration, positions))
      case PrematureClosure =>
        && InvertedEdges(edges, byNumber, iteration, positions) == {}
        && r.issues == Ends(PrematureEdges(edges, byNumber, iteration, positions))
      case _ => false
  {
    assert forall e :: e in edges ==> Within(e, edges);
    var inverted := set e | e in edges && Inverted(e, iteration, positions);
    assert inverted == InvertedEdges(edges, byNumber, iteration, positions);
    if inverted != {} {
      return Failed(IterationInverted, Ends(inverted));
    }
    var premature := set e | e in edges && Premature(e, byNumber);
    assert premature == PrematureEdges(edges, byNumber, iteration, positions);
    if premature != {} {
      return Failed(PrematureClosure, Ends(premature));
    }
    return Passed(());
  }

  /** The checks on whole edges, in the order in which their failures are reported. */
  method CheckEdges(edges: set<Dependency>, policy: Policy, byNumber: Issues, iteration: map<int, string>,
                    positions: map<string, int>)
    returns (r: Verdict<()>)
    requires Located(edges, byNumber, iteration, positions)
    ensures r.Passed? <==>
      && Acyclic(Dependents(edges))
      && RequiredEdges(policy) <= edges
      && InvertedEdges(edges, byNumber, iteration, positions) == {}
      && PrematureEdges(edges, byNumber, iteration, positions) == {}
    ensures r.Failed? ==>
      match r.code
      case DependencyCycle => forall n :: n in r.issues <==> Cyclic(Dependents(edges), n)
      case DependencyReversed =>
        r.issues == Ends(set e | e in RequiredEdges(policy) - edges && Dependency(e.blockedBy, e.blocked) in edges)
      case DependencyMissing =>
        && r.issues == Ends(RequiredEdges(policy) - edges)
        && forall e :: e in RequiredEdges(policy) - edges ==> Dependency(e.blockedBy, e.blocked) !in edges
      case IterationInverted =>
        && RequiredEdges(policy) <= edges
        && r.issues == Ends(InvertedEdges(edges, byNumber, iteration, positions))
      case PrematureClosure =>
        && InvertedEdges(edges, byNumber, iteration, positions) == {}
        && r.issues == Ends(PrematureEdges(edges, byNumber, iteration, positions))
      case _ => false
  {
    hide Dependents, Cyclic, Acyclic, Ends, InvertedEdges, PrematureEdges, RequiredEdges, Located;
    var cyclic, components := DependencyCycleNodes(edges);
    NoneCyclic(Dependents(edges), cyclic);
    if cyclic != [] {
      return Failed(DependencyCycle, set n | n in cyclic);
    }
    r := CheckRequired(edges, policy);
    if r.Passed? {
      r := CheckOrder(edges, byNumber, iteration, positions);
    }
  }

  /** What the gate demands of the indexed issues. */
  ghost predicate GateHolds(byNumber: Issues, policy: Policy, text: Text) {
    var positions := Positions(policy.iterationOrder);
    && Checked(policy) <= byNumber.Keys
    && AllPlaced(byNumber, policy, positions, text)
    && RequirementsMet(byNumber, policy, positions, text)
    && BlockersComplete(byNumber, policy)
    && AllTrusted(byNumber, policy, Checked(policy))
    && EdgesHold(ActualEdges(byNumber, policy), byNumber, policy, positions, text)
  }

  ghost predicate AllPlaced(byNumber: Issues, policy: Policy, positions: map<string, int>, text: Text) {
    forall n :: n in Checked(policy) && n in byNumber ==> Placed(byNumber[n], positions, text)
  }

  ghost predicate RequirementsMet(byNumber: Issues, policy: Policy, positions: map<string, int>, text: Text) {
    forall q :: q in policy.requiredIssues && q.number in byNumber ==>
      RequirementMet(byNumber[q.number], q, positions, text)
  }

  ghost predicate BlockersComplete(byNumber: Issues, policy: Policy) {
    forall n :: n in Checked(policy) && n in byNumber ==> byNumber[n].blockersComplete
  }

  ghost predicate EdgesHold(edges: set<Dependency>, byNumber: Issues, policy: Policy, positions: map<string, int>,
                            text: Text) {
    && Acyclic(Dependents(edges))
    && RequiredEdges(policy) <= edges
    && (forall e {:trigger Later(e, byNumber, positions, text)} :: e in edges ==> !Later(e, byNumber, positions, text))
    && (forall e {:trigger ClosedTooSoon(e, byNumber)} :: e in edges ==> !ClosedTooSoon(e, byNumber))
  }

  ghost predicate RequirementMet(issue: ProjectIssue, q: Requirement, positions: map<string, int>, text: Text) {
    IterationOf(issue, positions, text) == Some(q.iteration) && issue.ownersComplete && OwnedBy(issue, q.owner, text)
  }

  /** The position of issue n's iteration in the policy's order. */
  ghost function PositionOf(n: int, byNumber: Issues, positions: map<string, int>, text: Text): int {
    if n in byNumber && IterationOf(byNumber[n], positions, text).Some?
    then positions[IterationOf(byNumber[n], positions, text).value]
    else 0
  }

  ghost predicate Later(e: Dependency, byNumber: Issues, positions: map<string, int>, text: Text) {
    PositionOf(e.blockedBy, byNumber, positions, text) > PositionOf(e.blocked, byNumber, positions, text)
  }

  ghost predicate IsClosed(n: int, byNumber: Issues) {
    n in byNumber && byNumber[n].state == CLOSED
  }

  ghost predicate ClosedTooSoon(e: Dependency, byNumber: Issues) {
    IsClosed(e.blocked, byNumber) && !IsClosed(e.blockedBy, byNumber)
  }

  /** `verify_security_dependency_gate`; the result lists the checked issues of the report. */
  method VerifySecurityDependencyGate(issues: seq<ProjectIssue>, policy: Policy, text: Text)
    returns (r: Verdict<seq<int>>, byNumber: Issues)
    ensures r.Passed? ==> DistinctItems(issues, |issues|) && DistinctNumbers(issues, |issues|, policy.repository)
    ensures DistinctItems(issues, |issues|) && DistinctNumbers(issues, |issues|, policy.repository) ==>
      && Indexes(byNumber, issues, |issues|, policy.repository)
      && (r.Passed? <==> GateHolds(byNumber, policy, text))
    ensures r.Passed? ==> forall n :: n in r.value <==> n in Checked(policy)
    ensures r.Passed? ==> forall i, j :: 0 <= i < j < |r.value| ==> r.value[i] < r.value[j]
  {
    byNumber := map[];
    var collected := CollectIssues(issues, policy.repository);
    if collected.Failed? {
      return Failed(collected.code, collected.issues), byNumber;
    }
    byNumber := collected.value;
    r := CheckIssues(byNumber, policy, text);
  }

  method CheckIssues(byNumber: Issues, policy: Policy, text: Text) returns (r: Verdict<seq<int>>)
    ensures r.Passed? <==> GateHolds(byNumber, policy, text)
    ensures r.Passed? ==> forall n :: n in r.value <==> n in Checked(policy)
    ensures r.Passed? ==> forall i, j :: 0 <= i < j < |r.value| ==> r.value[i] < r.value[j]
  {
    hide AllTrusted, ActualEdges, EdgesHold, RequirementsMet, Positions;
    if policy.consumer !in byNumber {
      return Failed(ConsumerMissing, {policy.consumer});
    }
    var checked := Checked(policy);
    var missing := checked - byNumber.Keys;
    NothingMissing(checked, byNumber.Keys);
    if missing != {} {
      return Failed(IssueMissing, missing);
    }
    hide Checked;
    var positions := Positions(policy.iterationOrder);
    var iterations := ReadIterations(byNumber, checked, positions, text);
    if iterations.Failed? {
      return Failed(iterations.code, iterations.issues);
    }
    var iteration := iterations.value;
    hide Placed;
    var owners := CheckOwners(byNumber, policy, iteration, positions, text);
    if owners.Failed? {
      return Failed(owners.code, owners.issues);
    }
    var incomplete := set n | n in checked && !byNumber[n].blockersComplete;
    if incomplete != {} {
      ghost var n := Member(incomplete);
      return Failed(PaginationIncomplete, incomplete);
    }
    assert BlockersComplete(byNumber, policy) by {
      assert forall n :: n in checked ==> n in incomplete || byNumber[n].blockersComplete;
    }
    var gathered := GatherEdges(byNumber, policy, checked);
    if gathered.Failed? {
      return Failed(gathered.code, gathered.issues);
    }
    ActualEnds(byNumber, policy);
    EdgeVerdicts(gathered.value, byNumber, policy, iteration, positions, text);
    var checks := CheckEdges(gathered.value, policy, byNumber, iteration, positions);
    if checks.Failed? {
      return Failed(checks.code, checks.issues);
    }
    var report := SortedInts(checked);
    return Passed(report);
  }

  /** The checks on recorded iterations and states say the same about the issues themselves. */
  lemma EdgeVerdicts(edges: set<Dependency>, byNumber: Issues, policy: Policy, iteration: map<int, string>,
                     positions: map<string, int>, text: Text)
    requires Ends(edges) <= iteration.Keys <= byNumber.Keys
    requires forall n :: n in iteration ==> IterationOf(byNumber[n], positions, text) == Some(iteration[n])
    ensures Located(edges, byNumber, iteration, positions)
    ensures EdgesHold(edges, byNumber, policy, positions, text) <==>
      && Acyclic(Dependents(edges))
      && RequiredEdges(policy) <= edges
      && InvertedEdges(edges, byNumber, iteration, positions) == {}
      && PrematureEdges(edges, byNumber, iteration, positions) == {}
  {
    hide Dependents, Acyclic;
    forall e | e in edges
      ensures Within(e, edges)
      ensures e in InvertedEdges(edges, byNumber, iteration, positions) <==> Later(e, byNumber, positions, text)
      ensures e in PrematureEdges(edges, byNumber, iteration, positions) <==> ClosedTooSoon(e, byNumber)
    {
      assert Within(e, edges);
    }
  }

  /** The iteration and owner that the policy requires of single issues. */
  method CheckOwners(byNumber: Issues, policy: Policy, iteration: map<int, string>, positions: map<string, int>,
                     text: Text)
    returns (r: Verdict<()>)
    requires Checked(policy) <= byNumber.Keys && iteration.Keys == Checked(policy)
    requires forall n :: n in iteration ==> IterationOf(byNumber[n], positions, text) == Some(iteration[n])
    ensures r.Passed? <==> RequirementsMet(byNumber, policy, positions, text)
  {
    assert forall q :: q in policy.requiredIssues ==> q.number in Checked(policy);
    var mismatches := set q | q in policy.requiredIssues && iteration[q.number] != q.iteration :: q.number;
    if mismatches != {} {
      ghost var n := Member(mismatches);
      return Failed(IterationMismatch, mismatches);
    }
    var incomplete := set q | q in policy.requiredIssues && !byNumber[q.number].ownersComplete :: q.number;
    if incomplete != {} {
      ghost var n := Member(incomplete);
      return Failed(PaginationIncomplete, incomplete);
    }
    var ownerless := set q | q in policy.requiredIssues && !OwnedBy(byNumber[q.number], q.owner, text) :: q.number;
    if ownerless != {} {
      ghost var n := Member(ownerless);
      return Failed(OwnerMissing, ownerless);
    }
    assert forall q :: q in policy.requiredIssues ==>
      (iteration[q.number] == q.iteration || q.number in mismatches)
      && (byNumber[q.number].ownersComplete || q.number in incomplete)
      && (OwnedBy(byNumber[q.number], q.owner, text) || q.number in ownerless);
    return Passed(());
  }

  // ----- what the edge checks mean for whole paths -----

  lemma ActualEnds(byNumber: Issues, policy: Policy)
    ensures Ends(ActualEdges(byNumber, policy)) <= Checked(policy)
  {
  }

  /** Along every dependency path the blocker's iteration is no later than the blocked issue's. */
  lemma PathsKeepIterations(byNumber: Issues, policy: Policy, text: Text, blocker: int, blocked: int)
    requires GateHolds(byNumber, policy, text)
    requires Reach(Dependents(ActualEdges(byNumber, policy)), blocker, blocked)
    ensures
      var positions := Positions(policy.iterationOrder);
      PositionOf(blocker, byNumber, positions, text) <= PositionOf(blocked, byNumber, positions, text)
  {
    var edges := ActualEdges(byNumber, policy);
    var positions := Positions(policy.iterationOrder);
    var late := set n | n in Ends(edges) + {blocker} &&
      PositionOf(blocker, byNumber, positions, text) <= PositionOf(n, byNumber, positions, text);
    forall u, v | Arrow(Dependents(edges), u, v) && u in late
      ensures v in late
    {
      DependentsArrow(edges, u, v);
      assert Dependency(v, u) in edges && !Later(Dependency(v, u), byNumber, positions, text);
    }
    ReachStaysClosed(Dependents(edges), late, blocker, blocked);
  }

  /** A closed issue has only closed transitive blockers among the checked issues. */
  lemma PathsKeepClosed(byNumber: Issues, policy: Policy, text: Text, blocker: int, blocked: int)
    requires GateHolds(byNumber, policy, text)
    requires Reach(Dependents(ActualEdges(byNumber, policy)), blocker, blocked)
    requires IsClosed(blocked, byNumber)
    ensures IsClosed(blocker, byNumber)
  {
    var edges := ActualEdges(byNumber, policy);
    if !IsClosed(blocker, byNumber) {
      var open := set n | n in Ends(edges) + {blocker} && !IsClosed(n, byNumber);
      forall u, v | Arrow(Dependents(edges), u, v) && u in open
        ensures v in open
      {
        DependentsArrow(edges, u, v);
        assert Dependency(v, u) in edges && !ClosedTooSoon(Dependency(v, u), byNumber);
      }
      ReachStaysClosed(Dependents(edges), open, blocker, blocked);
    }
  }

  // ----- a linear order for the whole plan -----

  /** The reported dependencies over all checked issues, isolated ones included. */
  ghost function Plan(byNumber: Issues, policy: Policy): Graph<int> {
    map u | u in Checked(policy) :: set e | e in ActualEdges(byNumber, policy) && e.blockedBy == u :: e.blocked
  }

  lemma PlanArrow(byNumber: Issues, policy: Policy, u: int, v: int)
    ensures Arrow(Plan(byNumber, policy), u, v) <==> Dependency(v, u) in ActualEdges(byNumber, policy)
    ensures Arrow(Plan(byNumber, policy), u, v) <==> Arrow(Dependents(ActualEdges(byNumber, policy)), u, v)
  {
    var edges := ActualEdges(byNumber, policy);
    DependentsArrow(edges, u, v);
    ActualEnds(byNumber, policy);
    if Dependency(v, u) in edges {
      assert Dependency(v, u).blockedBy in Ends(edges);
    }
  }

  lemma PlanAcyclic(byNumber: Issues, policy: Policy)
    requires Acyclic(Dependents(ActualEdges(byNumber, policy)))
    ensures Acyclic(Plan(byNumber, policy))
  {
    var g, h := Plan(byNumber, policy), Dependents(ActualEdges(byNumber, policy));
    forall u, v
      ensures Arrow(g, u, v) ==> Arrow(h, u, v)
    {
      PlanArrow(byNumber, policy, u, v);
    }
    forall x
      ensures !Cyclic(g, x)
    {
      if Cyclic(g, x) {
        CyclicInLarger(g, h, x);
      }
    }
  }

  /** Iteration first, then depth among the blockers. */
  ghost function Rank(n: int, byNumber: Issues, policy: Policy, text: Text): int {
    PositionOf(n, byNumber, Positions(policy.iterationOrder), text) * (|Checked(policy)| + 1)
      + |Ancestors(Plan(byNumber, policy), n)|
  }

  lemma RankBounds(n: int, byNumber: Issues, policy: Policy)
    ensures 0 <= |Ancestors(Plan(byNumber, policy), n)| <= |Checked(policy)|
  {
    SubsetSmaller(Ancestors(Plan(byNumber, policy), n), Checked(policy));
  }

  lemma SubsetSmaller(a: set<int>, b: set<int>)
    requires a <= b
    ensures |a| <= |b|
  {
    assert |b| == |a| + |b - a|;
  }

  lemma RankGrows(u: int, v: int, byNumber: Issues, policy: Policy, text: Text)
    requires GateHolds(byNumber, policy, text) && Arrow(Plan(byNumber, policy), u, v)
    ensures Rank(u, byNumber, policy, text) < Rank(v, byNumber, policy, text)
  {
    PlanArrow(byNumber, policy, u, v);
    EdgeFacts(byNumber, policy, text, Dependency(v, u));
    PlanAcyclic(byNumber, policy);
    AncestorsGrow(Plan(byNumber, policy), u, v);
    RankStep(u, v, byNumber, policy, text);
  }

  lemma RankStep(u: int, v: int, byNumber: Issues, policy: Policy, text: Text)
    requires !Later(Dependency(v, u), byNumber, Positions(policy.iterationOrder), text)
    requires |Ancestors(Plan(byNumber, policy), u)| < |Ancestors(Plan(byNumber, policy), v)|
    ensures Rank(u, byNumber, policy, text) < Rank(v, byNumber, policy, text)
  {
    hide Plan, Ancestors, Checked, PositionOf, Positions;
    var positions := Positions(policy.iterationOrder);
    RankBounds(u, byNumber, policy);
    RankBounds(v, byNumber, policy);
    LexicographicFirst(PositionOf(u, byNumber, positions, text), PositionOf(v, byNumber, positions, text),
                       |Ancestors(Plan(byNumber, policy), u)|, |Ancestors(Plan(byNumber, policy), v)|,
                         |Checked(policy)|);
  }

  lemma EdgeFacts(byNumber: Issues, policy: Policy, text: Text, e: Dependency)
    requires GateHolds(byNumber, policy, text) && e in ActualEdges(byNumber, policy)
    ensures !Later(e, byNumber, Positions(policy.iterationOrder), text)
    ensures Acyclic(Dependents(ActualEdges(byNumber, policy)))
  {
  }

  /** Sorted by rank, the checked issues are in the order of the iterations and of the plan's arrows. */
  lemma RankedPlan(byNumber: Issues, policy: Policy, text: Text) returns (order: seq<int>)
    requires GateHolds(byNumber, policy, text)
    ensures IsOrder(Plan(byNumber, policy), order)
    ensures
      var positions := Positions(policy.iterationOrder);
      forall i, j :: 0 <= i < j < |order| ==>
        PositionOf(order[i], byNumber, positions, text) <= PositionOf(order[j], byNumber, positions, text)
  {
    hide GateHolds, Ancestors, PositionOf, ActualEdges, Positions;
    var g := Plan(byNumber, policy);
    var positions := Positions(policy.iterationOrder);
    var key := map n | n in Checked(policy) :: Rank(n, byNumber, policy, text);
    forall u, v | Arrow(g, u, v) && v in key
      ensures key[u] < key[v]
    {
      RankGrows(u, v, byNumber, policy, text);
    }
    order := KeyGivesOrder(g, key);
    forall i, j | 0 <= i < j < |order|
      ensures PositionOf(order[i], byNumber, positions, text) <= PositionOf(order[j], byNumber, positions, text)
    {
      assert order[i] in order && order[j] in order;
      RankBounds(order[i], byNumber, policy);
      RankBounds(order[j], byNumber, policy);
      LexicographicFirst(PositionOf(order[i], byNumber, positions, text),
        PositionOf(order[j], byNumber, positions, text),
                         |Ancestors(g, order[i])|, |Ancestors(g, order[j])|, |Checked(policy)|);
    }
  }

  lemma RequiredAreActual(byNumber: Issues, policy: Policy, text: Text)
    requires GateHolds(byNumber, policy, text)
    ensures forall d :: d in policy.requiredDependencies ==> d in ActualEdges(byNumber, policy)
  {
    hide Positions, AllPlaced, RequirementsMet, BlockersComplete, AllTrusted, ActualEdges;
    assert forall d :: d in policy.requiredDependencies ==> d in RequiredEdges(policy);
  }

  ghost predicate InOrder(order: seq<int>, d: Dependency) {
    exists i, j :: 0 <= i < j < |order| && order[i] == d.blockedBy && order[j] == d.blocked
  }

  lemma ArrowInOrder(g: Graph<int>, order: seq<int>, d: Dependency)
    requires IsOrder(g, order) && Arrow(g, d.blockedBy, d.blocked) && d.blocked in order
    ensures InOrder(order, d)
  {
    var i :| 0 <= i < |order| && order[i] == d.blockedBy;
    var j :| 0 <= j < |order| && order[j] == d.blocked;
    assert Arrow(g, order[i], order[j]);
  }

  lemma EndIsChecked(byNumber: Issues, policy: Policy, d: Dependency)
    requires d in ActualEdges(byNumber, policy)
    ensures d.blocked in Checked(policy)
  {
    ActualEnds(byNumber, policy);
    assert d.blocked in Ends(ActualEdges(byNumber, policy));
  }

  /** When the gate holds, the checked issues can be done one after another, iteration by iteration, with the blocker of
    * every dependency between them, required or not, before the issue it blocks.
    */
  lemma LinearPlan(byNumber: Issues, policy: Policy, text: Text) returns (order: seq<int>)
    requires GateHolds(byNumber, policy, text)
    ensures Distinct(order) && forall n :: n in order <==> n in Checked(policy)
    ensures
      var positions := Positions(policy.iterationOrder);
      forall i, j :: 0 <= i < j < |order| ==>
        PositionOf(order[i], byNumber, positions, text) <= PositionOf(order[j], byNumber, positions, text)
    ensures forall d :: d in policy.requiredDependencies || d in ActualEdges(byNumber, policy) ==> InOrder(order, d)
  {
    hide GateHolds, PositionOf, ActualEdges, Positions, Checked, Ancestors;
    order := RankedPlan(byNumber, policy, text);
    RequiredAreActual(byNumber, policy, text);
    forall d | d in ActualEdges(byNumber, policy) ensures InOrder(order, d) {
      PlanArrow(byNumber, policy, d.blockedBy, d.blocked);
      EndIsChecked(byNumber, policy, d);
      ArrowInOrder(Plan(byNumber, policy), order, d);
    }
  }

  lemma LexicographicFirst(p: int, q: int, a: int, b: int, m: nat)
    requires 0 <= a <= m && 0 <= b <= m
    ensures p > q ==> p * (m + 1) + a > q * (m + 1) + b
    ensures p <= q && a < b ==> p * (m + 1) + a < q * (m + 1) + b
  {
    if p <= q {
      assert p * (m + 1) <= q * (m + 1);
    }
    if p > q {
      assert p * (m + 1) >= (q + 1) * (m + 1);
    }
  }
}
