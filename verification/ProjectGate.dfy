/** The blocker closure of `verify_project_gate` (scripts/verify_release_project.py). */
module ProjectGate {
  import opened Digraph
  import opened Sorting
  import opened Project
  import opened Wrappers

  datatype Key = Key(repository: string, number: int)

  datatype Gate = Gate(priorities: seq<string>, status: string, validation: string)

  /** The ProjectVerificationError messages, with the issue or priority they name. */
  datatype Failure =
    | NoIssues(priority: string)
    | StillOpen(number: int)
    | WrongStatus(number: int)
    | WrongValidation(number: int)
    | IncompletePagination(number: int)
    | OpenDependency(number: int)
    | MalformedDependency

  type Outcome = Option<Failure>

  function KeyOf(issue: ProjectIssue): Key {
    Key(issue.repository, issue.number)
  }

  /** What `verify_project_schema` has established about the items of the release iteration. */
  ghost predicate ValidSchema(items: seq<ProjectIssue>) {
    && (forall i, j :: 0 <= i < j < |items| ==> KeyOf(items[i]) != KeyOf(items[j]))
    && (forall issue :: issue in items ==> {PRIORITY, STATUS, VALIDATION} <= issue.fields.Keys)
  }

  /** `by_issue` */
  function ByIssue(items: seq<ProjectIssue>): (byIssue: map<Key, ProjectIssue>)
    ensures forall k :: k in byIssue ==> byIssue[k] in items && KeyOf(byIssue[k]) == k
    ensures forall issue :: issue in items ==> KeyOf(issue) in byIssue
  {
    if items == [] then map[]
    else
      var last := items[|items| - 1];
      ByIssue(items[..|items| - 1])[KeyOf(last) := last]
  }

  /** Under a valid schema every item is the one found under its key. */
  lemma {:induction false} ByIssueFinds(items: seq<ProjectIssue>, issue: ProjectIssue)
    requires ValidSchema(items) && issue in items
    ensures ByIssue(items)[KeyOf(issue)] == issue
  {
    var found := ByIssue(items)[KeyOf(issue)];
    var i :| 0 <= i < |items| && items[i] == issue;
    var j :| 0 <= j < |items| && items[j] == found;
    assert KeyOf(items[i]) == KeyOf(items[j]);
  }

  predicate Cleared(issue: ProjectIssue, gate: Gate)
    requires STATUS in issue.fields && VALIDATION in issue.fields
  {
    && issue.state == CLOSED
    && issue.fields[STATUS] == gate.status
    && issue.fields[VALIDATION] == gate.validation
  }

  /** The issues of the iteration, by key, with the fields that the schema guarantees. */
  type Index = m: map<Key, ProjectIssue> | forall k {:trigger m[k]} :: k in m ==> HasFields(m[k]) witness map[]

  ghost predicate HasFields(issue: ProjectIssue) {
    STATUS in issue.fields && VALIDATION in issue.fields
  }

  /** `_validate_cleared` */
  method ValidateCleared(issue: ProjectIssue, gate: Gate, dependency: bool) returns (failure: Outcome)
    requires HasFields(issue)
    ensures failure.None? <==> Cleared(issue, gate)
    ensures issue.state != CLOSED ==>
      failure == Some(if dependency then OpenDependency(issue.number) else StillOpen(issue.number))
    ensures failure.Some? && issue.state == CLOSED ==>
      failure.value == if issue.fields[STATUS] != gate.status then WrongStatus(issue.number)
        else WrongValidation(issue.number)
  {
    if issue.state != CLOSED {
      if dependency {
        return Some(OpenDependency(issue.number));
      }
      return Some(StillOpen(issue.number));
    }
    if issue.fields[STATUS] != gate.status {
      return Some(WrongStatus(issue.number));
    }
    if issue.fields[VALIDATION] != gate.validation {
      return Some(WrongValidation(issue.number));
    }
    return None;
  }

  function BlockerKey(b: Blocker): Key
    requires b.Blocker?
  {
    Key(b.repository, b.number)
  }

  /** An arrow from each issue of the iteration to those of its blockers that are in the iteration too. */
  ghost function BlockedBy(byIssue: Index): Graph<Key> {
    map k | k in byIssue :: set b | b in byIssue[k].blockers && b.Blocker? && BlockerKey(b) in byIssue :: BlockerKey(b)
  }

  ghost predicate BlockerFine(b: Blocker, byIssue: Index, gate: Gate) {
    b.Blocker? && b.state == CLOSED && (BlockerKey(b) in byIssue ==> Cleared(byIssue[BlockerKey(b)], gate))
  }

  /** All of the issue's blockers are known, closed, and cleared when they belong to the iteration. */
  ghost predicate BlockersFine(k: Key, byIssue: Index, gate: Gate) {
    k in byIssue ==>
      && byIssue[k].blockersComplete
      && forall b :: b in byIssue[k].blockers ==> BlockerFine(b, byIssue, gate)
  }

  /** Every visited issue that no running call is still reading is fine, and so are its blockers visited. */
  ghost predicate Settled(byIssue: Index, gate: Gate, visited: set<Key>, active: set<Key>) {
    && (forall k {:trigger BlockersFine(k, byIssue, gate)} :: k in visited - active ==> BlockersFine(k, byIssue, gate))
    && (forall k, b {:trigger Arrow(BlockedBy(byIssue), k, b)} ::
          Arrow(BlockedBy(byIssue), k, b) && k in visited - active ==> b in visited)
  }

  ghost predicate LeadsToBad(byIssue: Index, gate: Gate, k: Key) {
    exists bad :: Reach(BlockedBy(byIssue), k, bad) && !BlockersFine(bad, byIssue, gate)
  }

  lemma BadHere(byIssue: Index, gate: Gate, k: Key)
    requires !BlockersFine(k, byIssue, gate)
    ensures LeadsToBad(byIssue, gate, k)
  {
    ReachSelf(BlockedBy(byIssue), k);
  }

  lemma BadBelow(byIssue: Index, gate: Gate, k: Key, b: Key)
    requires Arrow(BlockedBy(byIssue), k, b) && LeadsToBad(byIssue, gate, b)
    ensures LeadsToBad(byIssue, gate, k)
  {
    var bad :| Reach(BlockedBy(byIssue), b, bad) && !BlockersFine(bad, byIssue, gate);
    ReachArrow(BlockedBy(byIssue), k, b);
    ReachTransitive(BlockedBy(byIssue), k, b, bad);
  }

  /** `verify_dependencies` */
  method VerifyDependencies(byIssue: Index, gate: Gate, before: set<Key>, key: Key, ghost active: set<Key>)
    returns (failure: Outcome, visited: set<Key>)
    requires key in byIssue && Settled(byIssue, gate, before, active)
    ensures failure.None? ==> Settled(byIssue, gate, visited, active) && before + {key} <= visited
    ensures failure.Some? ==> LeadsToBad(byIssue, gate, key)
    decreases byIssue.Keys - before
  {
    visited := before;
    if key in visited {
      return None, visited;
    }
    visited := visited + {key};
    var issue := byIssue[key];
    if !issue.blockersComplete {
      BadHere(byIssue, gate, key);
      return Some(IncompletePagination(issue.number)), visited;
    }
    for i := 0 to |issue.blockers|
      invariant before + {key} <= visited
      invariant Settled(byIssue, gate, visited, active + {key})
      invariant forall j :: 0 <= j < i ==> BlockerFine(issue.blockers[j], byIssue, gate)
      invariant forall j :: 0 <= j < i && BlockerKey(issue.blockers[j]) in byIssue ==>
        BlockerKey(issue.blockers[j]) in visited
    {
      var blocker := issue.blockers[i];
      assert blocker in issue.blockers;
      assert BlockersFine(key, byIssue, gate) ==> BlockerFine(blocker, byIssue, gate);
      if blocker.Malformed? {
        BadHere(byIssue, gate, key);
        return Some(MalformedDependency), visited;
      }
      if blocker.state != CLOSED {
        BadHere(byIssue, gate, key);
        return Some(OpenDependency(blocker.number)), visited;
      }
      var dependency := BlockerKey(blocker);
      if dependency !in byIssue {
        continue;
      }
      failure := ValidateCleared(byIssue[dependency], gate, true);
      if failure.Some? {
        BadHere(byIssue, gate, key);
        return;
      }
      assert Arrow(BlockedBy(byIssue), key, dependency);
      failure, visited := VerifyDependencies(byIssue, gate, visited, dependency, active + {key});
      if failure.Some? {
        BadBelow(byIssue, gate, key, dependency);
        return;
      }
    }
    failure := None;
  }

  // ----- the gate -----

  ghost predicate Selected(issue: ProjectIssue, gate: Gate) {
    PRIORITY in issue.fields && issue.fields[PRIORITY] in gate.priorities
  }

  ghost predicate PrioritiesPresent(items: seq<ProjectIssue>, gate: Gate) {
    forall p :: p in gate.priorities ==> exists issue ::
      && issue in items && PRIORITY in issue.fields
      && issue.fields[PRIORITY] == p
  }

  /** Every selected issue is cleared, and so is the whole in-iteration blocker closure below it. */
  ghost predicate ClosureCleared(items: seq<ProjectIssue>, gate: Gate)
    requires ValidSchema(items)
  {
    forall issue :: issue in items && Selected(issue, gate) ==>
      && Cleared(issue, gate)
      && forall k :: Reach(BlockedBy(ByIssue(items)), KeyOf(issue), k) ==> CleanIssue(k, items, gate)
  }

  ghost predicate CleanIssue(k: Key, items: seq<ProjectIssue>, gate: Gate)
    requires ValidSchema(items)
  {
    k in ByIssue(items) && Cleared(ByIssue(items)[k], gate) && BlockersFine(k, ByIssue(items), gate)
  }

  lemma SchemaIndexes(items: seq<ProjectIssue>)
    requires ValidSchema(items)
    ensures forall k {:trigger ByIssue(items)[k]} :: k in ByIssue(items) ==> HasFields(ByIssue(items)[k])
  {
    forall issue | issue in items
      ensures HasFields(issue)
    {
      assert STATUS in {PRIORITY, STATUS, VALIDATION} && VALIDATION in {PRIORITY, STATUS, VALIDATION};
    }
  }

  /** Once every call has returned, everything reachable from a visited, cleared issue is clean. */
  lemma VisitedIsClean(items: seq<ProjectIssue>, gate: Gate, visited: set<Key>, start: Key, k: Key)
    requires ValidSchema(items) && HasFieldsAll(ByIssue(items))
    requires Settled(ByIssue(items), gate, visited, {})
    requires start in visited && start in ByIssue(items) && Cleared(ByIssue(items)[start], gate)
    requires Reach(BlockedBy(ByIssue(items)), start, k)
    ensures CleanIssue(k, items, gate)
  {
    var byIssue := ByIssue(items);
    var clean := set c | c in visited && c in byIssue && Cleared(byIssue[c], gate);
    forall u, v | Arrow(BlockedBy(byIssue), u, v) && u in clean
      ensures v in clean
    {
      assert u in visited - {} && BlockersFine(u, byIssue, gate);
      var b :| b in byIssue[u].blockers && b.Blocker? && BlockerKey(b) in byIssue && BlockerKey(b) == v;
      assert BlockerFine(b, byIssue, gate);
    }
    ReachStaysClosed(BlockedBy(byIssue), clean, start, k);
    assert k in visited - {} && BlockersFine(k, byIssue, gate);
  }

  ghost predicate HasFieldsAll(byIssue: map<Key, ProjectIssue>) {
    forall k {:trigger byIssue[k]} :: k in byIssue ==> HasFields(byIssue[k])
  }

  /** `verify_project_gate`, after `verify_project_schema` */
  method VerifyProjectGate(items: seq<ProjectIssue>, gate: Gate) returns (failure: Outcome)
    requires ValidSchema(items)
    ensures failure.None? <==> PrioritiesPresent(items, gate) && ClosureCleared(items, gate)
  {
    hide Settled, PrioritiesPresent, ClosureCleared, LeadsToBad, Cleared, BlockedBy;
    SchemaIndexes(items);
    var byIssue: Index := ByIssue(items);
    failure := CheckSelected(items, gate);
    if failure.Some? {
      SelectedInClosure(items, gate);
      return;
    }
    var visited := {};
    NothingVisited(byIssue, gate);
    for i := 0 to |items|
      invariant Settled(byIssue, gate, visited, {})
      invariant forall j :: 0 <= j < i && Selected(items[j], gate) ==> KeyOf(items[j]) in visited
    {
      if items[i].fields[PRIORITY] in gate.priorities {
        failure, visited := VerifyDependencies(byIssue, gate, visited, KeyOf(items[i]), {});
        if failure.Some? {
          assert Selected(items[i], gate) && items[i] in items;
          NotClean(items, gate, items[i]);
          return;
        }
      }
    }
    AllClean(items, gate, visited);
    failure := None;
  }

  lemma NothingVisited(byIssue: Index, gate: Gate)
    ensures Settled(byIssue, gate, {}, {})
  {
  }

  lemma SelectedInClosure(items: seq<ProjectIssue>, gate: Gate)
    requires ValidSchema(items)
    ensures ClosureCleared(items, gate) ==> forall issue :: issue in items && Selected(issue, gate) ==>
      Cleared(issue, gate)
  {
    hide Selected, Cleared;
  }

  lemma AllClean(items: seq<ProjectIssue>, gate: Gate, visited: set<Key>)
    requires ValidSchema(items) && HasFieldsAll(ByIssue(items)) && Settled(ByIssue(items), gate, visited, {})
    requires forall issue :: issue in items && Selected(issue, gate) ==> Cleared(issue, gate)
    requires forall j :: 0 <= j < |items| && Selected(items[j], gate) ==> KeyOf(items[j]) in visited
    ensures ClosureCleared(items, gate)
  {
    hide Settled, Cleared, CleanIssue, Selected, HasFieldsAll;
    forall issue, k | issue in items && Selected(issue, gate) && Reach(BlockedBy(ByIssue(items)), KeyOf(issue), k)
      ensures CleanIssue(k, items, gate)
    {
      ByIssueFinds(items, issue);
      VisitedIsClean(items, gate, visited, KeyOf(issue), k);
    }
  }

  lemma NotClean(items: seq<ProjectIssue>, gate: Gate, issue: ProjectIssue)
    requires ValidSchema(items) && HasFieldsAll(ByIssue(items))
    requires issue in items && Selected(issue, gate) && LeadsToBad(ByIssue(items), gate, KeyOf(issue))
    ensures !ClosureCleared(items, gate)
  {
    var byIssue: Index := ByIssue(items);
    var bad :| Reach(BlockedBy(byIssue), KeyOf(issue), bad) && !BlockersFine(bad, byIssue, gate);
    assert !CleanIssue(bad, items, gate);
  }

  /** The priorities and the selected issues themselves. */
  method CheckSelected(items: seq<ProjectIssue>, gate: Gate) returns (failure: Outcome)
    requires ValidSchema(items)
    ensures failure.None? <==>
      PrioritiesPresent(items, gate) && forall issue :: issue in items && Selected(issue, gate) ==> Cleared(issue, gate)
  {
    for p := 0 to |gate.priorities|
      invariant forall q :: 0 <= q < p ==>
        exists issue :: issue in items && PRIORITY in issue.fields && issue.fields[PRIORITY] == gate.priorities[q]
    {
      if !exists issue :: issue in items && PRIORITY in issue.fields && issue.fields[PRIORITY] == gate.priorities[p] {
        assert gate.priorities[p] in gate.priorities;
        return Some(NoIssues(gate.priorities[p]));
      }
    }
    for i := 0 to |items|
      invariant forall j :: 0 <= j < i && Selected(items[j], gate) ==> Cleared(items[j], gate)
    {
      assert items[i] in items;
      if items[i].fields[PRIORITY] in gate.priorities {
        failure := ValidateCleared(items[i], gate, false);
        if failure.Some? {
          return;
        }
      }
    }
    failure := None;
  }
}
