/** What `verify_security_dependency_gate` (scripts/verify_release_project.py:876-1041) demands, said of the Project's
  * issues and the policy directly, without the tables and sets that the code makes of them.
  */
module SecurityGateMeaning {
  import opened DependencyCycles
  import opened Digraph
  import opened Project
  import opened SecurityGate
  import opened TopologicalOrder
  import opened Wrappers

  // ----- the demands -----

  /** The policy names the issue: as required, in a dependency, or as the consumer of the evidence. */
  ghost predicate Concerns(policy: Policy, n: int) {
    || n == policy.consumer
    || (exists q :: q in policy.requiredIssues && q.number == n)
    || (exists d :: d in policy.requiredDependencies && (d.blocked == n || d.blockedBy == n))
  }

  /** The issue of that number in the policy's repository. */
  ghost predicate IsIssue(issues: seq<ProjectIssue>, policy: Policy, n: int, issue: ProjectIssue) {
    issue in issues && issue.repository == policy.repository && issue.number == n
  }

  /** The issue's title field names this iteration. */
  ghost predicate InIteration(issue: ProjectIssue, iteration: string, text: Text) {
    && "Release iteration" in issue.fields && "Release iteration" !in issue.fieldErrors
    && text.iterationKey(issue.fields["Release iteration"]) == Some(iteration)
  }

  /** It is in the i-th iteration of the policy. */
  ghost predicate InPlace(issue: ProjectIssue, policy: Policy, i: int, text: Text) {
    0 <= i < |policy.iterationOrder| && InIteration(issue, policy.iterationOrder[i], text)
  }

  ghost predicate IssueFine(issue: ProjectIssue, policy: Policy, text: Text) {
    && (exists i :: InPlace(issue, policy, i, text))
    && "Status" in issue.fields && "Status" !in issue.fieldErrors
    && (issue.state == "OPEN" || issue.state == "CLOSED")
    && issue.blockersComplete
    && (forall b :: b in issue.blockers ==> b.Blocker? && (b.state == "OPEN" || b.state == "CLOSED"))
    && (forall i, j :: 0 <= i < j < |issue.blockers| && issue.blockers[i].Blocker? && issue.blockers[j].Blocker? ==>
          issue.blockers[i].number != issue.blockers[j].number
          || issue.blockers[i].repository != issue.blockers[j].repository)
  }

  ghost predicate RequirementFine(issue: ProjectIssue, q: Requirement, text: Text) {
    && InIteration(issue, q.iteration, text) && issue.ownersComplete
    && exists o :: o in issue.owners && text.casefold(o) == text.casefold(q.owner)
  }

  /** Issue b names issue a of the policy's repository as a blocker, in this state; the policy concerns both. */
  ghost predicate Names(issues: seq<ProjectIssue>, policy: Policy, a: int, b: int, state: string) {
    && Concerns(policy, a) && Concerns(policy, b)
    && exists issue :: IsIssue(issues, policy, b, issue) && Blocker(a, state, policy.repository) in issue.blockers
  }

  ghost predicate Blocks(issues: seq<ProjectIssue>, policy: Policy, a: int, b: int) {
    exists state :: Names(issues, policy, a, b, state)
  }

  /** A dependency path: each issue blocks the next. */
  ghost predicate IsPath(issues: seq<ProjectIssue>, policy: Policy, p: seq<int>) {
    |p| > 0 && forall i {:trigger p[i]} :: 0 <= i && i + 1 < |p| ==> Blocks(issues, policy, p[i], p[i + 1])
  }

  ghost predicate IssuesFine(issues: seq<ProjectIssue>, policy: Policy, text: Text) {
    && (forall n :: Concerns(policy, n) ==> exists issue :: IsIssue(issues, policy, n, issue))
    && (forall n, issue :: Concerns(policy, n) && IsIssue(issues, policy, n, issue) ==> IssueFine(issue, policy, text))
    && (forall q, issue :: q in policy.requiredIssues && IsIssue(issues, policy, q.number, issue) ==>
          RequirementFine(issue, q, text))
  }

  /** A blocker is known in its own state. */
  ghost predicate StatesAgree(issues: seq<ProjectIssue>, policy: Policy) {
    forall a, b, state, issue ::
      Names(issues, policy, a, b, state) && IsIssue(issues, policy, a, issue) ==> issue.state == state
  }

  ghost predicate NoCycle(issues: seq<ProjectIssue>, policy: Policy) {
    forall p :: IsPath(issues, policy, p) && |p| > 1 ==> p[0] != p[|p| - 1]
  }

  /** No issue waits for one of a later iteration, and none is closed before one that blocks it. */
  ghost predicate OrderFine(issues: seq<ProjectIssue>, policy: Policy, text: Text) {
    forall a, b, first, next ::
      && Blocks(issues, policy, a, b) && IsIssue(issues, policy, a, first) && IsIssue(issues, policy, b, next) ==>
        && (forall i, j :: InPlace(first, policy, i, text) && InPlace(next, policy, j, text) ==> i <= j)
        && (next.state == "CLOSED" ==> first.state == "CLOSED")
  }

  ghost predicate Demands(issues: seq<ProjectIssue>, policy: Policy, text: Text) {
    && IssuesFine(issues, policy, text) && StatesAgree(issues, policy)
    && (forall d :: d in policy.requiredDependencies ==> Blocks(issues, policy, d.blockedBy, d.blocked))
    && NoCycle(issues, policy) && OrderFine(issues, policy, text)
  }

  /** No two items share their identifier, and no two issues of the repository their number. */
  ghost predicate ItemsDistinct(issues: seq<ProjectIssue>, policy: Policy) {
    forall i, j :: 0 <= i < j < |issues| ==>
      && issues[i].itemId != issues[j].itemId
      && (issues[i].repository == policy.repository && issues[j].repository == policy.repository ==>
            issues[i].number != issues[j].number)
  }

  // ----- the tables -----

  /** In an order without repetitions each iteration has its own index as its position. */
  lemma {:induction false} PositionIsIndex(order: seq<string>, i: nat)
    requires Distinct(order) && i < |order|
    ensures order[i] in Positions(order) && Positions(order)[order[i]] == i
    decreases |order|
  {
    var n := |order| - 1;
    if i < n {
      assert order[..n][i] == order[i];
      PositionIsIndex(order[..n], i);
    }
  }

  lemma {:induction false} PositionedIsListed(order: seq<string>, iteration: string)
    ensures iteration in Positions(order) ==> iteration in order
    decreases |order|
  {
    if order != [] {
      PositionedIsListed(order[..|order| - 1], iteration);
    }
  }

  lemma CheckedIff(policy: Policy, n: int)
    ensures n in Checked(policy) <==> Concerns(policy, n)
  {
  }

  lemma IndexedIff(issues: seq<ProjectIssue>, byNumber: Issues, policy: Policy, n: int, issue: ProjectIssue)
    requires ItemsDistinct(issues, policy) && Indexes(byNumber, issues, |issues|, policy.repository)
    ensures IsIssue(issues, policy, n, issue) <==> n in byNumber && byNumber[n] == issue
  {
    if n in byNumber {
      assert HeldBy(byNumber[n], issues, |issues|);
      var i :| 0 <= i < |issues| && issues[i] == byNumber[n];
      if IsIssue(issues, policy, n, issue) {
        var j :| 0 <= j < |issues| && issues[j] == issue;
        assert i == j;
      }
    }
  }

  lemma IterationIff(issue: ProjectIssue, policy: Policy, i: int, text: Text)
    requires Distinct(policy.iterationOrder) && "Release iteration" !in issue.fieldErrors
    ensures InPlace(issue, policy, i, text) <==>
      var positions := Positions(policy.iterationOrder);
      var iteration := IterationOf(issue, positions, text);
      iteration.Some? && iteration.value in positions && positions[iteration.value] == i
  {
    var order, positions := policy.iterationOrder, Positions(policy.iterationOrder);
    var iteration := IterationOf(issue, positions, text);
    if InPlace(issue, policy, i, text) {
      PositionIsIndex(order, i);
    }
    if iteration.Some? && iteration.value in positions && positions[iteration.value] == i {
      PositionedIsListed(order, iteration.value);
      var j :| 0 <= j < |order| && order[j] == iteration.value;
      PositionIsIndex(order, j);
    }
  }

  lemma PlacedIff(issue: ProjectIssue, policy: Policy, text: Text)
    requires Distinct(policy.iterationOrder)
    ensures Placed(issue, Positions(policy.iterationOrder), text) <==>
      && (exists i :: InPlace(issue, policy, i, text))
      && "Status" in issue.fields && "Status" !in issue.fieldErrors
      && (issue.state == "OPEN" || issue.state == "CLOSED")
  {
    hide InPlace;
    var positions := Positions(policy.iterationOrder);
    var iteration := IterationOf(issue, positions, text);
    if "Release iteration" !in issue.fieldErrors {
      forall i ensures InPlace(issue, policy, i, text) <==>
        iteration.Some? && iteration.value in positions && positions[iteration.value] == i
      {
        IterationIff(issue, policy, i, text);
      }
      if iteration.Some? {
        assert InPlace(issue, policy, positions[iteration.value], text);
      }
    } else {
      forall i ensures !InPlace(issue, policy, i, text) {
        NotPlaced(issue, policy, i, text);
      }
    }
  }

  lemma NotPlaced(issue: ProjectIssue, policy: Policy, i: int, text: Text)
    requires "Release iteration" in issue.fieldErrors
    ensures !InPlace(issue, policy, i, text)
  {
  }

  lemma RequirementIff(issue: ProjectIssue, q: Requirement, policy: Policy, text: Text)
    requires Placed(issue, Positions(policy.iterationOrder), text)
    ensures RequirementMet(issue, q, Positions(policy.iterationOrder), text) <==> RequirementFine(issue, q, text)
  {
    hide Positions;
  }

  // ----- the issues -----

  /** The table holds just the issues of the repository. */
  ghost predicate Tables(issues: seq<ProjectIssue>, byNumber: Issues, policy: Policy) {
    forall n, issue :: IsIssue(issues, policy, n, issue) <==> n in byNumber && byNumber[n] == issue
  }

  ghost predicate BlockersFine(blockers: seq<Blocker>) {
    && (forall b :: b in blockers ==> b.Blocker? && (b.state == "OPEN" || b.state == "CLOSED"))
    && (forall i, j :: 0 <= i < j < |blockers| && blockers[i].Blocker? && blockers[j].Blocker? ==>
          blockers[i].number != blockers[j].number || blockers[i].repository != blockers[j].repository)
  }

  lemma IssueFineIff(issue: ProjectIssue, policy: Policy, text: Text)
    requires Distinct(policy.iterationOrder)
    ensures IssueFine(issue, policy, text) <==>
      && Placed(issue, Positions(policy.iterationOrder), text) && issue.blockersComplete
      && BlockersFine(issue.blockers)
  {
    hide Placed, InPlace, Positions;
    PlacedIff(issue, policy, text);
  }

  lemma TrustedIff(byNumber: Issues, policy: Policy, checked: set<int>, blockers: seq<Blocker>)
    ensures Trusted(byNumber, policy, checked, blockers) <==>
      && BlockersFine(blockers)
      && forall b :: b in blockers && InScope(b, policy, checked) && b.number in byNumber ==>
           byNumber[b.number].state == b.state
  {
    hide InScope;
    assert forall i :: 0 <= i < |blockers| ==> blockers[i] in blockers;
  }

  ghost predicate IssuesHold(byNumber: Issues, policy: Policy, text: Text) {
    var positions := Positions(policy.iterationOrder);
    && Checked(policy) <= byNumber.Keys && AllPlaced(byNumber, policy, positions, text)
    && RequirementsMet(byNumber, policy, positions, text) && BlockersComplete(byNumber, policy)
    && AllTrusted(byNumber, policy, Checked(policy))
  }

  lemma NamesIff(issues: seq<ProjectIssue>, byNumber: Issues, policy: Policy, a: int, b: int, state: string)
    requires Tables(issues, byNumber, policy)
    ensures Names(issues, policy, a, b, state) <==>
      && a in Checked(policy) && b in Checked(policy) && b in byNumber
      && Blocker(a, state, policy.repository) in byNumber[b].blockers
  {
    hide IsIssue, Concerns, Checked;
    CheckedIff(policy, a);
    CheckedIff(policy, b);
    if b in byNumber {
      assert IsIssue(issues, policy, b, byNumber[b]);
    }
  }

  lemma IssuesFineThen(issues: seq<ProjectIssue>, byNumber: Issues, policy: Policy, text: Text)
    requires Distinct(policy.iterationOrder) && Tables(issues, byNumber, policy)
    requires IssuesFine(issues, policy, text) && StatesAgree(issues, policy)
    ensures IssuesHold(byNumber, policy, text)
  {
    hide IsIssue, Concerns, Checked, Placed, Trusted, RequirementMet, RequirementFine, IssueFine, BlockersFine,
      Positions,
      Names;
    var checked := Checked(policy);
    forall n ensures n in checked <==> Concerns(policy, n) {
      CheckedIff(policy, n);
    }
    forall n | n in checked
      ensures n in byNumber && Placed(byNumber[n], Positions(policy.iterationOrder), text)
      ensures byNumber[n].blockersComplete && Trusted(byNumber, policy, checked, byNumber[n].blockers)
    {
      var issue :| IsIssue(issues, policy, n, issue);
      IssueFineIff(issue, policy, text);
      TrustedIff(byNumber, policy, checked, issue.blockers);
      forall b | b in issue.blockers && b.Blocker? && InScope(b, policy, checked) && b.number in byNumber
        ensures byNumber[b.number].state == b.state
      {
        InScopeIs(b, policy, checked);
        NamesIff(issues, byNumber, policy, b.number, n, b.state);
        assert IsIssue(issues, policy, b.number, byNumber[b.number]);
      }
    }
    forall q | q in policy.requiredIssues && q.number in byNumber
      ensures RequirementMet(byNumber[q.number], q, Positions(policy.iterationOrder), text)
    {
      assert IsIssue(issues, policy, q.number, byNumber[q.number]);
      RequiredIsConcern(policy, q);
      RequirementIff(byNumber[q.number], q, policy, text);
    }
  }

  lemma InScopeIs(b: Blocker, policy: Policy, checked: set<int>)
    ensures InScope(b, policy, checked) <==>
      b.Blocker? && b == Blocker(b.number, b.state, policy.repository) && b.number in checked
  {
  }

  lemma RequiredIsConcern(policy: Policy, q: Requirement)
    requires q in policy.requiredIssues
    ensures Concerns(policy, q.number)
  {
  }

  lemma IssuesFineIf(issues: seq<ProjectIssue>, byNumber: Issues, policy: Policy, text: Text)
    requires Distinct(policy.iterationOrder) && Tables(issues, byNumber, policy) && IssuesHold(byNumber, policy, text)
    ensures IssuesFine(issues, policy, text) && StatesAgree(issues, policy)
  {
    hide IsIssue, Concerns, Checked, Placed, Trusted, RequirementMet, RequirementFine, IssueFine, BlockersFine,
      Positions,
      Names, InScope;
    var checked := Checked(policy);
    forall n ensures n in checked <==> Concerns(policy, n) {
      CheckedIff(policy, n);
    }
    forall n | n in checked
      ensures IsIssue(issues, policy, n, byNumber[n]) && IssueFine(byNumber[n], policy, text)
      ensures Placed(byNumber[n], Positions(policy.iterationOrder), text)
    {
      IssueFineIff(byNumber[n], policy, text);
      TrustedIff(byNumber, policy, checked, byNumber[n].blockers);
    }
    forall q, issue | q in policy.requiredIssues && IsIssue(issues, policy, q.number, issue)
      ensures RequirementFine(issue, q, text)
    {
      RequiredIsConcern(policy, q);
      RequirementIff(issue, q, policy, text);
    }
    forall a, b, state, issue | Names(issues, policy, a, b, state) && IsIssue(issues, policy, a, issue)
      ensures issue.state == state
    {
      NamesIff(issues, byNumber, policy, a, b, state);
      var blocker := Blocker(a, state, policy.repository);
      InScopeIs(blocker, policy, checked);
      TrustedIff(byNumber, policy, checked, byNumber[b].blockers);
    }
  }

  // ----- the edges -----

  lemma EdgeIff(issues: seq<ProjectIssue>, byNumber: Issues, policy: Policy, a: int, b: int)
    requires Tables(issues, byNumber, policy)
    ensures Dependency(b, a) in ActualEdges(byNumber, policy) <==> Blocks(issues, policy, a, b)
    ensures Arrow(Dependents(ActualEdges(byNumber, policy)), a, b) <==> Blocks(issues, policy, a, b)
  {
    hide Checked, Names, Tables;
    var edges, checked := ActualEdges(byNumber, policy), Checked(policy);
    if Dependency(b, a) in edges {
      assert b in checked && b in byNumber && Dependency(b, a) in EdgesOf(b, byNumber[b].blockers, policy, checked);
      var blocker :| blocker in byNumber[b].blockers && InScope(blocker, policy, checked)
        && Dependency(b, blocker.number) == Dependency(b, a);
      NamesIff(issues, byNumber, policy, a, b, blocker.state);
      assert blocker == Blocker(a, blocker.state, policy.repository);
    }
    if Blocks(issues, policy, a, b) {
      var state :| Names(issues, policy, a, b, state);
      NamesIff(issues, byNumber, policy, a, b, state);
      var blocker := Blocker(a, state, policy.repository);
      assert blocker in byNumber[b].blockers && InScope(blocker, policy, checked);
      assert Dependency(b, a) in EdgesOf(b, byNumber[b].blockers, policy, checked);
    }
    hide ActualEdges;
    DependentsArrow(edges, a, b);
  }

  lemma PathIff(issues: seq<ProjectIssue>, byNumber: Issues, policy: Policy, p: seq<int>)
    requires Tables(issues, byNumber, policy)
    ensures Walk(Dependents(ActualEdges(byNumber, policy)), p) <==> IsPath(issues, policy, p)
  {
    hide ActualEdges, Dependents, Arrow, Tables, Blocks;
    var g := Dependents(ActualEdges(byNumber, policy));
    forall i | 0 <= i < |p| - 1 ensures StepAt(g, p, i) <==> Blocks(issues, policy, p[i], p[i + 1]) {
      EdgeIff(issues, byNumber, policy, p[i], p[i + 1]);
    }
    if IsPath(issues, policy, p) {
      forall i | 0 <= i < |p| - 1 ensures StepAt(g, p, i) {
        assert Blocks(issues, policy, p[i], p[i + 1]);
      }
    }
    if Walk(g, p) {
      forall i | 0 <= i && i + 1 < |p| ensures Blocks(issues, policy, p[i], p[i + 1]) {
        assert StepAt(g, p, i);
      }
    }
  }

  lemma PathCloses(issues: seq<ProjectIssue>, byNumber: Issues, policy: Policy, p: seq<int>)
    requires Tables(issues, byNumber, policy) && IsPath(issues, policy, p) && |p| > 1 && p[0] == p[|p| - 1]
    ensures Cyclic(Dependents(ActualEdges(byNumber, policy)), p[0])
  {
    hide ActualEdges, Dependents, Tables, Arrow, Blocks;
    var g := Dependents(ActualEdges(byNumber, policy));
    PathIff(issues, byNumber, policy, p);
    WalkTail(g, p);
    assert StepAt(g, p, 0);
    assert WalkBetween(g, p[1..], p[1], p[0]);
  }

  lemma CycleIsPath(issues: seq<ProjectIssue>, byNumber: Issues, policy: Policy, x: int) returns (p: seq<int>)
    requires Tables(issues, byNumber, policy) && Cyclic(Dependents(ActualEdges(byNumber, policy)), x)
    ensures IsPath(issues, policy, p) && |p| > 1 && p[0] == p[|p| - 1]
  {
    hide ActualEdges, Dependents, Tables, Arrow, Blocks;
    var g := Dependents(ActualEdges(byNumber, policy));
    var z := FirstArrow(g, x, x);
    var q :| WalkBetween(g, q, z, x);
    p := [x] + q;
    WalkStarts(g, x, q);
    PathIff(issues, byNumber, policy, p);
  }

  lemma CycleIff(issues: seq<ProjectIssue>, byNumber: Issues, policy: Policy)
    requires Tables(issues, byNumber, policy)
    ensures Acyclic(Dependents(ActualEdges(byNumber, policy))) <==> NoCycle(issues, policy)
  {
    hide ActualEdges, Dependents, Tables, Cyclic, IsPath;
    var g := Dependents(ActualEdges(byNumber, policy));
    if Acyclic(g) {
      forall p | IsPath(issues, policy, p) && |p| > 1 ensures p[0] != p[|p| - 1] {
        if p[0] == p[|p| - 1] {
          PathCloses(issues, byNumber, policy, p);
        }
      }
    } else {
      var x := SomeCycle(g);
      var p := CycleIsPath(issues, byNumber, policy, x);
    }
  }

  lemma WalkStarts(g: Graph<int>, x: int, q: seq<int>)
    requires Walk(g, q) && Arrow(g, x, q[0])
    ensures Walk(g, [x] + q)
  {
    var p := [x] + q;
    forall i | 0 <= i < |p| - 1 ensures StepAt(g, p, i) {
      if i > 0 {
        assert StepAt(g, q, i - 1);
      }
    }
  }

  lemma PositionIff(issues: seq<ProjectIssue>, byNumber: Issues, policy: Policy, text: Text, n: int, i: int)
    requires Distinct(policy.iterationOrder) && IssuesHold(byNumber, policy, text) && n in Checked(policy)
    ensures n in byNumber && (InPlace(byNumber[n], policy, i, text) <==>
      PositionOf(n, byNumber, Positions(policy.iterationOrder), text) == i)
  {
    hide Positions, Trusted, RequirementMet, InPlace, Checked;
    assert Placed(byNumber[n], Positions(policy.iterationOrder), text);
    IterationIff(byNumber[n], policy, i, text);
  }

  /** The two checks of one edge. */
  lemma EdgeFineIff(issues: seq<ProjectIssue>, byNumber: Issues, policy: Policy, text: Text, a: int, b: int)
    requires Distinct(policy.iterationOrder) && Tables(issues, byNumber, policy) && IssuesHold(byNumber, policy, text)
    requires a in Checked(policy) && b in Checked(policy)
    ensures a in byNumber && b in byNumber
    ensures
      var first, next := byNumber[a], byNumber[b];
      !Later(Dependency(b, a), byNumber, Positions(policy.iterationOrder), text) <==>
        forall i, j :: InPlace(first, policy, i, text) && InPlace(next, policy, j, text) ==> i <= j
    ensures !ClosedTooSoon(Dependency(b, a), byNumber) <==>
      (byNumber[b].state == "CLOSED" ==> byNumber[a].state == "CLOSED")
  {
    hide Tables, IssuesHold, InPlace, PositionOf, Checked;
    var positions := Positions(policy.iterationOrder);
    var x, y := PositionOf(a, byNumber, positions, text), PositionOf(b, byNumber, positions, text);
    PositionIff(issues, byNumber, policy, text, a, x);
    PositionIff(issues, byNumber, policy, text, b, y);
    forall i
      ensures InPlace(byNumber[a], policy, i, text) <==> i == x
      ensures InPlace(byNumber[b], policy, i, text) <==> i == y
    {
      PositionIff(issues, byNumber, policy, text, a, i);
      PositionIff(issues, byNumber, policy, text, b, i);
    }
    assert InPlace(byNumber[a], policy, x, text) && InPlace(byNumber[b], policy, y, text);
  }

  ghost predicate EdgesOrdered(byNumber: Issues, policy: Policy, text: Text) {
    var edges, positions := ActualEdges(byNumber, policy), Positions(policy.iterationOrder);
    && (forall e {:trigger Later(e, byNumber, positions, text)} :: e in edges ==> !Later(e, byNumber, positions, text))
    && (forall e {:trigger ClosedTooSoon(e, byNumber)} :: e in edges ==> !ClosedTooSoon(e, byNumber))
  }

  lemma BlocksConcern(issues: seq<ProjectIssue>, policy: Policy, a: int, b: int)
    requires Blocks(issues, policy, a, b)
    ensures a in Checked(policy) && b in Checked(policy)
  {
    CheckedIff(policy, a);
    CheckedIff(policy, b);
    hide Concerns, Checked;
  }

  lemma OrderIff(issues: seq<ProjectIssue>, byNumber: Issues, policy: Policy, text: Text)
    requires Distinct(policy.iterationOrder) && Tables(issues, byNumber, policy) && IssuesHold(byNumber, policy, text)
    ensures EdgesOrdered(byNumber, policy, text) <==> OrderFine(issues, policy, text)
  {
    hide IssuesHold, InPlace, Later, ClosedTooSoon, ActualEdges, Positions, Blocks, Checked, IsIssue;
    var edges, positions := ActualEdges(byNumber, policy), Positions(policy.iterationOrder);
    if EdgesOrdered(byNumber, policy, text) {
      forall a, b, first, next | Blocks(issues, policy, a, b) && IsIssue(issues, policy, a, first)
        && IsIssue(issues, policy, b, next)
        ensures forall i, j :: InPlace(first, policy, i, text) && InPlace(next, policy, j, text) ==> i <= j
        ensures next.state == "CLOSED" ==> first.state == "CLOSED"
      {
        EdgeIff(issues, byNumber, policy, a, b);
        BlocksConcern(issues, policy, a, b);
        EdgeFineIff(issues, byNumber, policy, text, a, b);
      }
    }
    if OrderFine(issues, policy, text) {
      forall e | e in edges ensures !Later(e, byNumber, positions, text) && !ClosedTooSoon(e, byNumber) {
        EdgeIff(issues, byNumber, policy, e.blockedBy, e.blocked);
        assert e == Dependency(e.blocked, e.blockedBy);
        BlocksConcern(issues, policy, e.blockedBy, e.blocked);
        EdgeFineIff(issues, byNumber, policy, text, e.blockedBy, e.blocked);
        assert IsIssue(issues, policy, e.blockedBy, byNumber[e.blockedBy]);
        assert IsIssue(issues, policy, e.blocked, byNumber[e.blocked]);
      }
    }
  }

  lemma RequiredIff(issues: seq<ProjectIssue>, byNumber: Issues, policy: Policy)
    requires Tables(issues, byNumber, policy)
    ensures RequiredEdges(policy) <= ActualEdges(byNumber, policy) <==>
      forall d :: d in policy.requiredDependencies ==> Blocks(issues, policy, d.blockedBy, d.blocked)
  {
    hide Tables, ActualEdges, Blocks;
    forall d ensures d in ActualEdges(byNumber, policy) <==> Blocks(issues, policy, d.blockedBy, d.blocked) {
      EdgeIff(issues, byNumber, policy, d.blockedBy, d.blocked);
      assert d == Dependency(d.blocked, d.blockedBy);
    }
  }

  // ----- the gate -----

  lemma TablesHold(issues: seq<ProjectIssue>, byNumber: Issues, policy: Policy)
    requires ItemsDistinct(issues, policy) && Indexes(byNumber, issues, |issues|, policy.repository)
    ensures Tables(issues, byNumber, policy)
  {
    hide IsIssue, ItemsDistinct, Indexes;
    forall n, issue ensures IsIssue(issues, policy, n, issue) <==> n in byNumber && byNumber[n] == issue {
      IndexedIff(issues, byNumber, policy, n, issue);
    }
  }

  lemma GateHoldsParts(byNumber: Issues, policy: Policy, text: Text)
    ensures GateHolds(byNumber, policy, text) <==>
      && IssuesHold(byNumber, policy, text) && RequiredEdges(policy) <= ActualEdges(byNumber, policy)
      && Acyclic(Dependents(ActualEdges(byNumber, policy))) && EdgesOrdered(byNumber, policy, text)
  {
    hide Positions, Checked, ActualEdges, AllPlaced, RequirementsMet, BlockersComplete, AllTrusted, RequiredEdges,
      Later,
      ClosedTooSoon, Acyclic;
  }

  /** What the code checks with its tables is what is demanded of the issues. */
  lemma GateIff(issues: seq<ProjectIssue>, byNumber: Issues, policy: Policy, text: Text)
    requires Distinct(policy.iterationOrder) && ItemsDistinct(issues, policy)
    requires Indexes(byNumber, issues, |issues|, policy.repository)
    ensures GateHolds(byNumber, policy, text) <==> Demands(issues, policy, text)
  {
    hide GateHolds, IssuesHold, EdgesOrdered, RequiredEdges, ActualEdges, Tables, IssuesFine, StatesAgree, NoCycle,
      OrderFine, ItemsDistinct, Indexes, Blocks, Acyclic;
    TablesHold(issues, byNumber, policy);
    GateHoldsParts(byNumber, policy, text);
    if IssuesFine(issues, policy, text) && StatesAgree(issues, policy) {
      IssuesFineThen(issues, byNumber, policy, text);
    }
    if IssuesHold(byNumber, policy, text) {
      IssuesFineIf(issues, byNumber, policy, text);
      OrderIff(issues, byNumber, policy, text);
    }
    RequiredIff(issues, byNumber, policy);
    CycleIff(issues, byNumber, policy);
  }

  lemma DistinctIff(issues: seq<ProjectIssue>, policy: Policy)
    ensures ItemsDistinct(issues, policy) <==>
      DistinctItems(issues, |issues|) && DistinctNumbers(issues, |issues|, policy.repository)
  {
  }

  // ----- along paths, and as a plan -----

  lemma BlockerOnPath(issues: seq<ProjectIssue>, policy: Policy, text: Text, a: int, b: int)
    returns (issue: ProjectIssue, i: int)
    requires IssuesFine(issues, policy, text) && Blocks(issues, policy, a, b)
    ensures IsIssue(issues, policy, a, issue) && InPlace(issue, policy, i, text)
  {
    hide IsIssue, InPlace, Concerns, RequirementFine;
    issue :| IsIssue(issues, policy, a, issue);
    assert IssueFine(issue, policy, text);
    i :| InPlace(issue, policy, i, text);
  }

  /** When the gate passes, no issue on a dependency path is in a later iteration of the policy than one after it, and
    * none is open before a closed one.
    */
  lemma {:induction false} PathsKeepOrder(issues: seq<ProjectIssue>, policy: Policy, text: Text, p: seq<int>,
                                          first: ProjectIssue, last: ProjectIssue)
    requires Demands(issues, policy, text) && IsPath(issues, policy, p) && |p| > 1
    requires IsIssue(issues, policy, p[0], first) && IsIssue(issues, policy, p[|p| - 1], last)
    ensures forall i, j :: InPlace(first, policy, i, text) && InPlace(last, policy, j, text) ==> i <= j
    ensures last.state == "CLOSED" ==> first.state == "CLOSED"
    decreases |p|
  {
    hide InPlace, NoCycle, StatesAgree, IsIssue, Blocks, IssuesFine;
    var n := |p| - 1;
    assert Blocks(issues, policy, p[n - 1], p[n - 1 + 1]);
    if n > 1 {
      var front := p[..n];
      assert forall i :: 0 <= i < n ==> front[i] == p[i];
      assert IsPath(issues, policy, front) by {
        forall i | 0 <= i && i + 1 < n ensures Blocks(issues, policy, front[i], front[i + 1]) {
          assert Blocks(issues, policy, p[i], p[i + 1]);
        }
      }
      var middle, m := BlockerOnPath(issues, policy, text, p[n - 1], p[n]);
      PathsKeepOrder(issues, policy, text, front, first, middle);
    }
  }

  /** The issue is in no later iteration than the other. */
  ghost predicate NotLater(issues: seq<ProjectIssue>, policy: Policy, text: Text, a: int, b: int) {
    forall first, next, i, j ::
      (&& IsIssue(issues, policy, a, first) && IsIssue(issues, policy, b, next)
       && InPlace(first, policy, i, text) && InPlace(next, policy, j, text)) ==> i <= j
  }

  /** When the gate passes, the issues that the policy concerns can be done one after another, iteration by iteration,
    * each after all that block it.
    */
  lemma PlanExists(issues: seq<ProjectIssue>, byNumber: Issues, policy: Policy, text: Text) returns (order: seq<int>)
    requires Distinct(policy.iterationOrder) && ItemsDistinct(issues, policy)
    requires Indexes(byNumber, issues, |issues|, policy.repository) && Demands(issues, policy, text)
    ensures Distinct(order) && forall n :: n in order <==> Concerns(policy, n)
    ensures forall x, y :: 0 <= x < y < |order| ==> NotLater(issues, policy, text, order[x], order[y])
    ensures forall a, b :: Blocks(issues, policy, a, b) ==> InOrder(order, Dependency(b, a))
  {
    hide Demands, ItemsDistinct, Indexes, GateHolds, IssuesHold, Positions, Checked, Concerns, PositionOf, ActualEdges,
      InOrder, Blocks, Tables, NotLater;
    TablesHold(issues, byNumber, policy);
    GateIff(issues, byNumber, policy, text);
    GateHoldsParts(byNumber, policy, text);
    order := LinearPlan(byNumber, policy, text);
    forall n ensures n in Checked(policy) <==> Concerns(policy, n) {
      CheckedIff(policy, n);
    }
    forall x, y | 0 <= x < y < |order| ensures NotLater(issues, policy, text, order[x], order[y]) {
      assert order[x] in order && order[y] in order;
      InOrderOfIterations(issues, byNumber, policy, text, order[x], order[y]);
    }
    forall a, b | Blocks(issues, policy, a, b) ensures InOrder(order, Dependency(b, a)) {
      EdgeIff(issues, byNumber, policy, a, b);
    }
  }

  lemma InOrderOfIterations(issues: seq<ProjectIssue>, byNumber: Issues, policy: Policy, text: Text, a: int, b: int)
    requires Distinct(policy.iterationOrder) && Tables(issues, byNumber, policy) && IssuesHold(byNumber, policy, text)
    requires a in Checked(policy) && b in Checked(policy)
    requires
      var positions := Positions(policy.iterationOrder);
      PositionOf(a, byNumber, positions, text) <= PositionOf(b, byNumber, positions, text)
    ensures NotLater(issues, policy, text, a, b)
  {
    hide Positions, PositionOf, Checked, InPlace, IsIssue, IssuesHold;
    forall first, next, i, j | IsIssue(issues, policy, a, first) && IsIssue(issues, policy, b, next)
      && InPlace(first, policy, i, text) && InPlace(next, policy, j, text)
      ensures i <= j
    {
      PositionIff(issues, byNumber, policy, text, a, i);
      PositionIff(issues, byNumber, policy, text, b, j);
    }
  }
}
