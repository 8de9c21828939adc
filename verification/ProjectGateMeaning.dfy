/** What `verify_project_gate` (scripts/verify_release_project.py:716-761) demands, said of the issues of the iteration
  * directly: along every chain of blockers within the iteration.
  */
module ProjectGateMeaning {
  import opened Digraph
  import opened Project
  import opened ProjectGate
  import opened Wrappers

  /** Some blocker of a has the repository and number of b, which is in the iteration. */
  ghost predicate IsBlockedBy(items: seq<ProjectIssue>, a: ProjectIssue, b: ProjectIssue) {
    b in items && exists state :: Blocker(b.number, state, b.repository) in a.blockers
  }

  /** Issues of the iteration, each of them blocked by the next. */
  ghost predicate IsChain(items: seq<ProjectIssue>, p: seq<ProjectIssue>) {
    |p| > 0 && p[0] in items
    && forall i {:trigger p[i]} :: 0 <= i && i + 1 < |p| ==> IsBlockedBy(items, p[i], p[i + 1])
  }

  /** Closed, with the gate's status and validation, all its blockers known, well-formed and closed. */
  ghost predicate IsClean(issue: ProjectIssue, gate: Gate) {
    && issue.state == "CLOSED"
    && "Status" in issue.fields && issue.fields["Status"] == gate.status
    && "Validation" in issue.fields && issue.fields["Validation"] == gate.validation
    && issue.blockersComplete && forall b :: b in issue.blockers ==> b.Blocker? && b.state == "CLOSED"
  }

  ghost predicate HasPriority(issue: ProjectIssue, priority: string) {
    "Priority" in issue.fields && issue.fields["Priority"] == priority
  }

  /** Each configured priority is there, and whatever a chain from an issue with one of them leads to is clean. */
  ghost predicate Demands(items: seq<ProjectIssue>, gate: Gate) {
    && (forall p :: p in gate.priorities ==> exists issue :: issue in items && HasPriority(issue, p))
    && (forall p, priority :: IsChain(items, p) && priority in gate.priorities && HasPriority(p[0], priority) ==>
          IsClean(p[|p| - 1], gate))
  }

  // ----- chains and walks -----

  lemma FoundByKey(items: seq<ProjectIssue>, issue: ProjectIssue)
    requires ValidSchema(items) && issue in items
    ensures KeyOf(issue) in ByIssue(items) && ByIssue(items)[KeyOf(issue)] == issue
  {
    var found := ByIssue(items)[KeyOf(issue)];
    var i :| 0 <= i < |items| && items[i] == issue;
    var j :| 0 <= j < |items| && items[j] == found;
  }

  /** In the graph of the closure, an arrow leads from an issue to those of its blockers that are in the iteration. */
  lemma ArrowIff(items: seq<ProjectIssue>, a: ProjectIssue, b: ProjectIssue)
    requires ValidSchema(items) && HasFieldsAll(ByIssue(items)) && a in items && b in items
    ensures Arrow(BlockedBy(ByIssue(items)), KeyOf(a), KeyOf(b)) <==> IsBlockedBy(items, a, b)
  {
    var byIssue: Index := ByIssue(items);
    FoundByKey(items, a);
    FoundByKey(items, b);
    hide ByIssue, ValidSchema, HasFieldsAll;
    if Arrow(BlockedBy(byIssue), KeyOf(a), KeyOf(b)) {
      var blocker :| blocker in a.blockers && blocker.Blocker? && BlockerKey(blocker) == KeyOf(b);
      assert blocker == Blocker(b.number, blocker.state, b.repository);
    }
    if IsBlockedBy(items, a, b) {
      var state :| Blocker(b.number, state, b.repository) in a.blockers;
      assert BlockerKey(Blocker(b.number, state, b.repository)) == KeyOf(b);
    }
  }

  function Keys(p: seq<ProjectIssue>): (r: seq<Key>)
    ensures |r| == |p| && forall i :: 0 <= i < |p| ==> r[i] == KeyOf(p[i])
  {
    seq(|p|, i requires 0 <= i < |p| => KeyOf(p[i]))
  }

  lemma {:induction false} ChainInItems(items: seq<ProjectIssue>, p: seq<ProjectIssue>, i: nat)
    requires IsChain(items, p) && i < |p|
    ensures p[i] in items
  {
    if i > 0 {
      assert IsBlockedBy(items, p[i - 1], p[i - 1 + 1]);
    }
  }

  lemma ChainIsWalk(items: seq<ProjectIssue>, p: seq<ProjectIssue>)
    requires ValidSchema(items) && HasFieldsAll(ByIssue(items)) && IsChain(items, p)
    ensures Reach(BlockedBy(ByIssue(items)), KeyOf(p[0]), KeyOf(p[|p| - 1]))
  {
    hide ValidSchema, BlockedBy, IsBlockedBy;
    var g, w := BlockedBy(ByIssue(items)), Keys(p);
    forall i | 0 <= i < |w| - 1 ensures StepAt(g, w, i) {
      assert IsBlockedBy(items, p[i], p[i + 1]);
      ChainInItems(items, p, i);
      ChainInItems(items, p, i + 1);
      ArrowIff(items, p[i], p[i + 1]);
    }
    assert WalkBetween(g, w, KeyOf(p[0]), KeyOf(p[|p| - 1]));
  }

  lemma ArrowTarget(items: seq<ProjectIssue>, a: Key, b: Key)
    requires ValidSchema(items) && HasFieldsAll(ByIssue(items)) && Arrow(BlockedBy(ByIssue(items)), a, b)
    ensures a in ByIssue(items) && b in ByIssue(items)
    ensures IsBlockedBy(items, ByIssue(items)[a], ByIssue(items)[b])
  {
    hide ValidSchema, HasFieldsAll, IsBlockedBy;
    ArrowIff(items, ByIssue(items)[a], ByIssue(items)[b]);
  }

  lemma {:induction false} WalkIsChain(items: seq<ProjectIssue>, w: seq<Key>) returns (p: seq<ProjectIssue>)
    requires ValidSchema(items) && HasFieldsAll(ByIssue(items)) && Walk(BlockedBy(ByIssue(items)), w)
    requires w[0] in ByIssue(items)
    ensures |p| == |w| && IsChain(items, p) && w[|w| - 1] in ByIssue(items)
    ensures p[0] == ByIssue(items)[w[0]] && p[|p| - 1] == ByIssue(items)[w[|w| - 1]]
    decreases |w|
  {
    hide ValidSchema, BlockedBy, IsBlockedBy, Arrow;
    var g := BlockedBy(ByIssue(items));
    if |w| == 1 {
      p := [ByIssue(items)[w[0]]];
    } else {
      assert StepAt(g, w, 0);
      ArrowTarget(items, w[0], w[1]);
      WalkTail(g, w);
      var rest := WalkIsChain(items, w[1..]);
      p := [ByIssue(items)[w[0]]] + rest;
      forall i | 0 <= i && i + 1 < |p| ensures IsBlockedBy(items, p[i], p[i + 1]) {
        assert i > 0 ==> p[i] == rest[i - 1] && p[i + 1] == rest[i - 1 + 1];
      }
    }
  }

  // ----- the gate -----

  lemma CleanIff(items: seq<ProjectIssue>, gate: Gate, issue: ProjectIssue)
    requires ValidSchema(items) && issue in items
    ensures CleanIssue(KeyOf(issue), items, gate) <==>
      && IsClean(issue, gate)
      && forall b :: IsBlockedBy(items, issue, b) ==> Cleared(b, gate)
  {
    FoundByKey(items, issue);
    SchemaIndexes(items);
    hide ByIssue;
    var byIssue: Index := ByIssue(items);
    forall b | b in items ensures KeyOf(b) in byIssue && byIssue[KeyOf(b)] == b {
      FoundByKey(items, b);
    }
    if CleanIssue(KeyOf(issue), items, gate) {
      forall b | IsBlockedBy(items, issue, b) ensures Cleared(b, gate) {
        var state :| Blocker(b.number, state, b.repository) in issue.blockers;
        assert BlockerFine(Blocker(b.number, state, b.repository), byIssue, gate);
      }
    }
    if IsClean(issue, gate) && forall b :: IsBlockedBy(items, issue, b) ==> Cleared(b, gate) {
      forall blocker | blocker in issue.blockers ensures BlockerFine(blocker, byIssue, gate) {
        if BlockerKey(blocker) in byIssue {
          var b := byIssue[BlockerKey(blocker)];
          assert blocker == Blocker(b.number, blocker.state, b.repository);
          assert IsBlockedBy(items, issue, b);
        }
      }
    }
  }

  lemma ClosureThen(items: seq<ProjectIssue>, gate: Gate, p: seq<ProjectIssue>)
    requires ValidSchema(items) && ClosureCleared(items, gate) && IsChain(items, p) && Selected(p[0], gate)
    ensures IsClean(p[|p| - 1], gate)
  {
    SchemaIndexes(items);
    ChainIsWalk(items, p);
    ChainInItems(items, p, |p| - 1);
    CleanIff(items, gate, p[|p| - 1]);
    hide IsClean, IsChain, CleanIssue;
  }

  lemma ChainGoesOn(items: seq<ProjectIssue>, p: seq<ProjectIssue>, b: ProjectIssue)
    requires IsChain(items, p) && IsBlockedBy(items, p[|p| - 1], b)
    ensures IsChain(items, p + [b])
  {
    hide IsBlockedBy;
    var q := p + [b];
    forall i | 0 <= i && i + 1 < |q| ensures IsBlockedBy(items, q[i], q[i + 1]) {
      if i + 1 < |p| {
        assert IsBlockedBy(items, p[i], p[i + 1]);
      }
    }
  }

  lemma CleanAtEnds(items: seq<ProjectIssue>, gate: Gate, issue: ProjectIssue, k: Key)
    requires ValidSchema(items) && HasFieldsAll(ByIssue(items)) && Demands(items, gate)
    requires issue in items && Selected(issue, gate) && Reach(BlockedBy(ByIssue(items)), KeyOf(issue), k)
    ensures CleanIssue(k, items, gate)
  {
    hide BlockedBy, IsClean, CleanIssue, IsChain, ByIssue;
    FoundByKey(items, issue);
    var w :| WalkBetween(BlockedBy(ByIssue(items)), w, KeyOf(issue), k);
    var p := WalkIsChain(items, w);
    var last := p[|p| - 1];
    assert HasPriority(p[0], issue.fields["Priority"]);
    assert IsClean(last, gate);
    forall b | IsBlockedBy(items, last, b) ensures Cleared(b, gate) {
      ChainGoesOn(items, p, b);
      assert IsClean((p + [b])[|p + [b]| - 1], gate);
      CleanIsCleared(b, gate);
    }
    CleanIff(items, gate, last);
  }

  lemma CleanIsCleared(issue: ProjectIssue, gate: Gate)
    requires IsClean(issue, gate)
    ensures STATUS in issue.fields && VALIDATION in issue.fields && Cleared(issue, gate)
  {
  }

  /** What the code checks through its table is what is demanded of the issues. */
  lemma GateIff(items: seq<ProjectIssue>, gate: Gate)
    requires ValidSchema(items)
    ensures PrioritiesPresent(items, gate) && ClosureCleared(items, gate) <==> Demands(items, gate)
  {
    SchemaIndexes(items);
    hide ValidSchema, IsClean, CleanIssue, IsChain, BlockedBy;
    if ClosureCleared(items, gate) {
      forall p, priority | IsChain(items, p) && priority in gate.priorities && HasPriority(p[0], priority)
        ensures IsClean(p[|p| - 1], gate)
      {
        ClosureThen(items, gate, p);
      }
    }
    if Demands(items, gate) {
      forall issue, k | issue in items && Selected(issue, gate) && Reach(BlockedBy(ByIssue(items)), KeyOf(issue), k)
        ensures CleanIssue(k, items, gate)
      {
        CleanAtEnds(items, gate, issue, k);
      }
      forall issue | issue in items && Selected(issue, gate) ensures Cleared(issue, gate) {
        ChainOfOne(items, issue);
        assert HasPriority([issue][0], issue.fields["Priority"]);
        assert IsClean([issue][|[issue]| - 1], gate);
        CleanIsCleared(issue, gate);
      }
    }
  }

  lemma ChainOfOne(items: seq<ProjectIssue>, issue: ProjectIssue)
    requires issue in items
    ensures IsChain(items, [issue])
  {
  }
}
