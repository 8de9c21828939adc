/** The two depth-first acyclicity checks, `_policy_graph_is_acyclic` (scripts/verify_release_project.py)
  * and `_security_policy_graph_is_acyclic` (scripts/create_release_evidence.py). Their inner `visit`
  * functions do the same steps and are modelled once.
  */
module AcyclicityChecks {
  import opened Digraph
  import opened Sorting
  import opened DependencyCycles
  import opened TopologicalOrder

  /** The sets that `visit` shares through its closure, passed in and out of its calls here. */
  datatype Marks = Marks(visiting: set<int>, visited: set<int>)

  /** Finished nodes are never left and lie on no cycle; each running call's node leads to the next one's. */
  ghost predicate Sound(g: Graph<int>, m: Marks) {
    && m.visiting !! m.visited
    && Closed(g, m.visited)
    && forall n {:trigger Cyclic(g, n)} :: n in m.visited ==> !Cyclic(g, n)
  }

  method Visit(g: Graph<int>, marks: Marks, number: int) returns (ok: bool, m: Marks)
    requires Complete(g) && number in g && Sound(g, marks)
    requires forall v :: v in marks.visiting ==> ReachPlus(g, v, number)
    ensures ok ==> Sound(g, m) && m.visiting == marks.visiting && marks.visited + {number} <= m.visited
    ensures !ok ==> !Acyclic(g)
    decreases g.Keys - marks.visiting - marks.visited
  {
    m := marks;
    if number in m.visiting {
      assert Cyclic(g, number);
      return false, m;
    }
    if number in m.visited {
      return true, m;
    }
    m := m.(visiting := m.visiting + {number});
    var pending := g[number];
    ghost var seen := {};
    while pending != {}
      invariant pending + seen == g[number]
      invariant Sound(g, m) && m.visiting == marks.visiting + {number}
      invariant marks.visited <= m.visited && seen <= m.visited
      decreases pending
    {
      var dependent := Any(pending);
      pending := pending - {dependent};
      TrailReaches(g, marks.visiting, number, dependent);
      assert dependent in g[number] && dependent in g.Keys;
      assert number in g.Keys - marks.visiting - marks.visited && number !in g.Keys - m.visiting - m.visited;
      ok, m := Visit(g, m, dependent);
      if !ok {
        return;
      }
      seen := seen + {dependent};
    }
    FinishKeepsSound(g, m, number);
    m := Marks(m.visiting - {number}, m.visited + {number});
    assert m.visiting == marks.visiting;
    ok := true;
  }

  lemma TrailReaches(g: Graph<int>, visiting: set<int>, n: int, d: int)
    requires Arrow(g, n, d)
    requires forall v :: v in visiting ==> ReachPlus(g, v, n)
    ensures forall v :: v in visiting + {n} ==> ReachPlus(g, v, d)
  {
    ReachSelf(g, d);
    ReachArrow(g, n, d);
    forall v | v in visiting
      ensures ReachPlus(g, v, d)
    {
      ReachPlusExtend(g, v, n, d);
    }
  }

  /** A node all of whose successors are finished cannot come back to itself. */
  lemma FinishKeepsSound(g: Graph<int>, m: Marks, n: int)
    requires Sound(g, m) && n in m.visiting
    requires forall d :: Arrow(g, n, d) ==> d in m.visited
    ensures Sound(g, Marks(m.visiting - {n}, m.visited + {n}))
  {
    forall x, y | Arrow(g, x, y) && x in m.visited + {n}
      ensures y in m.visited + {n}
    {
    }
    forall x | x in m.visited + {n}
      ensures !Cyclic(g, x)
    {
      if Cyclic(g, n) {
        CyclicLeavesInto(g, n, m.visited);
      }
    }
  }

  method VisitAll(g: Graph<int>) returns (ok: bool)
    requires Complete(g)
    ensures ok <==> Acyclic(g)
  {
    var m := Marks({}, {});
    var pending := g.Keys;
    while pending != {}
      invariant pending <= g.Keys && g.Keys - pending <= m.visited
      invariant Sound(g, m) && m.visiting == {}
      decreases pending
    {
      var number := Any(pending);
      pending := pending - {number};
      ok, m := Visit(g, m, number);
      if !ok {
        return;
      }
    }
    forall n
      ensures !Cyclic(g, n)
    {
      if Cyclic(g, n) {
        CyclicHasArrow(g, n);
      }
    }
    ok := true;
  }

  ghost function Listed(dependencies: seq<Dependency>): set<Dependency> {
    set d | d in dependencies
  }

  /** `_policy_graph_is_acyclic` */
  method PolicyGraphIsAcyclic(dependencies: seq<Dependency>) returns (ok: bool)
    ensures ok <==> Acyclic(Dependents(Listed(dependencies)))
  {
    var adjacency := map[];
    for i := 0 to |dependencies|
      invariant adjacency == Dependents(Listed(dependencies[..i]))
    {
      var d := dependencies[i];
      AddDependency(Listed(dependencies[..i]), d);
      assert Listed(dependencies[..i + 1]) == Listed(dependencies[..i]) + {d};
      adjacency := adjacency[d.blockedBy := SetDefault(adjacency, d.blockedBy) + {d.blocked}];
      adjacency := adjacency[d.blocked := SetDefault(adjacency, d.blocked)];
    }
    assert dependencies[..|dependencies|] == dependencies;
    DependentsDescribe(Listed(dependencies));
    ok := VisitAll(adjacency);
  }

  function FromPairs(pairs: seq<(int, int)>): seq<Dependency> {
    seq(|pairs|, i requires 0 <= i < |pairs| => Dependency(pairs[i].0, pairs[i].1))
  }

  /** `_security_policy_graph_is_acyclic`, over (blocked, blocked_by) pairs */
  method SecurityPolicyGraphIsAcyclic(pairs: seq<(int, int)>) returns (ok: bool)
    ensures ok <==> Acyclic(Dependents(Listed(FromPairs(pairs))))
  {
    var adjacency := map[];
    for i := 0 to |pairs|
      invariant adjacency == Dependents(Listed(FromPairs(pairs)[..i]))
    {
      var (blocked, blockedBy) := pairs[i];
      AddDependency(Listed(FromPairs(pairs)[..i]), Dependency(blocked, blockedBy));
      assert FromPairs(pairs)[..i + 1] == FromPairs(pairs)[..i] + [Dependency(blocked, blockedBy)];
      assert Listed(FromPairs(pairs)[..i + 1]) == Listed(FromPairs(pairs)[..i]) + {Dependency(blocked, blockedBy)};
      adjacency := adjacency[blockedBy := SetDefault(adjacency, blockedBy) + {blocked}];
      adjacency := adjacency[blocked := SetDefault(adjacency, blocked)];
    }
    assert FromPairs(pairs)[..|pairs|] == FromPairs(pairs);
    DependentsDescribe(Listed(FromPairs(pairs)));
    ok := VisitAll(adjacency);
  }

  /** On the same dependencies the three checks answer alike: there is a cycle, or a topological order. */
  method CheckThreeWays(pairs: seq<(int, int)>, edges: set<Dependency>)
    returns (policy: bool, evidence: bool, cyclic: seq<int>)
    requires edges == set d | d in FromPairs(pairs)
    ensures policy <==> evidence
    ensures policy <==> cyclic == []
    ensures policy <==> exists order :: IsOrder(Dependents(edges), order)
  {
    policy := PolicyGraphIsAcyclic(FromPairs(pairs));
    evidence := SecurityPolicyGraphIsAcyclic(pairs);
    ghost var components;
    cyclic, components := DependencyCycleNodes(edges);
    assert Listed(FromPairs(pairs)) == edges;
    assert cyclic != [] ==> cyclic[0] in cyclic;
    DependentsDescribe(edges);
    AcyclicIffOrder(Dependents(edges));
  }
}
