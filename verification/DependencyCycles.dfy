/** The strongly-connected-component pass of `_dependency_cycle_nodes`
  * (scripts/verify_release_project.py), with its explicit stack, visit indices and low links.
  * An edge is a pair (blocked, blockedBy); the search follows blocker-to-dependent arrows.
  */
module DependencyCycles {
  import opened Digraph
  import opened Sorting

  datatype Dependency = Dependency(blocked: int, blockedBy: int)

  function Ends(edges: set<Dependency>): set<int> {
    (set e | e in edges :: e.blocked) + (set e | e in edges :: e.blockedBy)
  }

  /** The graph of a set of dependencies: an arrow from every blocker to each issue it blocks. */
  ghost function Dependents(edges: set<Dependency>): Graph<int> {
    map u | u in Ends(edges) :: set e | e in edges && e.blockedBy == u :: e.blocked
  }

  lemma DependentsArrow(edges: set<Dependency>, u: int, v: int)
    ensures Arrow(Dependents(edges), u, v) <==> Dependency(v, u) in edges
  {
    if Dependency(v, u) in edges {
      assert Dependency(v, u).blockedBy in Ends(edges);
    }
  }

  /** What `visit` needs to know of the graph it shares with its caller. */
  ghost predicate Describes(g: Graph<int>, edges: set<Dependency>) {
    && Complete(g)
    && forall n {:trigger Dependency(n, n)} :: Dependency(n, n) in edges <==> Arrow(g, n, n)
  }

  lemma DependentsDescribe(edges: set<Dependency>)
    ensures Describes(Dependents(edges), edges)
  {
    forall n
      ensures Dependency(n, n) in edges <==> Arrow(Dependents(edges), n, n)
    {
      DependentsArrow(edges, n, n);
    }
  }

  method BuildAdjacency(edges: set<Dependency>) returns (adjacency: map<int, set<int>>)
    ensures adjacency == Dependents(edges)
  {
    adjacency := map[];
    var pending := edges;
    ghost var done := {};
    while pending != {}
      invariant pending + done == edges
      invariant adjacency == Dependents(done)
      decreases pending
    {
      var e :| e in pending;
      pending := pending - {e};
      AddDependency(done, e);
      adjacency := adjacency[e.blockedBy := SetDefault(adjacency, e.blockedBy) + {e.blocked}];
      adjacency := adjacency[e.blocked := SetDefault(adjacency, e.blocked)];
      done := done + {e};
    }
  }

  /** `dict.setdefault(key, set())` */
  function SetDefault(adjacency: map<int, set<int>>, key: int): set<int> {
    if key in adjacency then adjacency[key] else {}
  }

  lemma AddDependency(edges: set<Dependency>, e: Dependency)
    ensures
      var before := Dependents(edges);
      var first := before[e.blockedBy := SetDefault(before, e.blockedBy) + {e.blocked}];
      first[e.blocked := SetDefault(first, e.blocked)] == Dependents(edges + {e})
  {
    var before := Dependents(edges);
    var first := before[e.blockedBy := SetDefault(before, e.blockedBy) + {e.blocked}];
    var after := first[e.blocked := SetDefault(first, e.blocked)];
    assert Ends(edges + {e}) == Ends(edges) + {e.blocked, e.blockedBy};
    forall u | u in after
      ensures after[u] == Dependents(edges + {e})[u]
    {
    }
  }

  function Min(a: int, b: int): int { if a <= b then a else b }

  /** The variables that `visit` shares through its closure, passed in and out of its calls here;
    * `components` records what was popped.
    */
  datatype State = State(
    index: nat,
    stack: seq<int>,
    onStack: set<int>,
    indices: map<int, int>,
    lowlinks: map<int, int>,
    cyclic: set<int>,
    components: set<set<int>>)
  {
    /** Nodes whose component has been popped. */
    ghost function Done(): set<int> {
      indices.Keys - onStack
    }
  }

  ghost predicate Bookkeeping(s: State) {
    && s.lowlinks.Keys == s.indices.Keys
    && (forall n :: n in s.indices ==> 0 <= s.indices[n] < s.index)
    && (forall n :: n in s.onStack <==> n in s.stack)
    && s.onStack <= s.indices.Keys
    && (forall i, j :: 0 <= i < j < |s.stack| ==> s.indices[s.stack[i]] < s.indices[s.stack[j]])
  }

  /** Nothing finished has an arrow to a node not yet seen; `active` are the nodes still being visited. */
  ghost predicate Frontier(g: Graph<int>, s: State, active: set<int>) {
    && active <= s.onStack
    && Closed(g, s.Done())
    && (forall u, v {:trigger Arrow(g, u, v)} :: Arrow(g, u, v) && u in s.onStack && u !in active ==> v in s.indices)
  }

  /** y reaches the older (or same) node a. */
  ghost predicate FallsBack(g: Graph<int>, indices: map<int, int>, y: int, a: int) {
    y in indices && a in indices && indices[a] <= indices[y] && Reach(g, y, a)
  }

  ghost predicate HasFallback(g: Graph<int>, indices: map<int, int>, active: set<int>, y: int) {
    exists a :: a in active && FallsBack(g, indices, y, a)
  }

  /** Stack nodes reach everything above them, and each falls back to an active node. */
  ghost predicate StackOrder(g: Graph<int>, s: State, active: set<int>) {
    && (forall i, j {:trigger Reach(g, s.stack[i], s.stack[j])} :: 0 <= i <= j < |s.stack| ==>
         Reach(g, s.stack[i], s.stack[j]))
    && (forall y {:trigger HasFallback(g, s.indices, active, y)} :: y in s.stack ==>
      HasFallback(g, s.indices, active, y))
  }

  ghost predicate Collected(components: set<set<int>>, n: int) {
    exists c :: c in components && n in c
  }

  /** What has been reported about the popped nodes is right. */
  ghost predicate Findings(g: Graph<int>, s: State) {
    && (forall n {:trigger n in s.cyclic} :: n in s.cyclic <==> n in s.Done() && Cyclic(g, n))
    && {} !in s.components
    && (forall c :: c in s.components ==> c <= s.Done() && IsComponent(g, c))
    && (forall n {:trigger Collected(s.components, n)} :: n in s.Done() ==> Collected(s.components, n))
  }

  ghost predicate Inv(g: Graph<int>, s: State, active: set<int>) {
    Bookkeeping(s) && Frontier(g, s, active) && StackOrder(g, s, active) && Findings(g, s)
  }

  /** s only adds to s0: the old stack is still at the bottom and old indices and low links are kept. */
  ghost predicate Grows(s0: State, s: State) {
    && s0.stack <= s.stack
    && (forall n :: n in s0.indices ==> n in s.indices && s.indices[n] == s0.indices[n])
    && (forall n :: n in s0.lowlinks ==> n in s.lowlinks && s.lowlinks[n] == s0.lowlinks[n])
  }

  /** The low link of n is the index of a node in `bottom` that n reaches. */
  ghost predicate Attained(g: Graph<int>, s: State, n: int, bottom: seq<int>) {
    && n in s.lowlinks
    && exists m :: m in bottom && m in s.indices && s.indices[m] == s.lowlinks[n] && Reach(g, n, m)
  }

  /** No arrow from the stack above position k into `bottom` goes below the low link of n. */
  ghost predicate Bounds(g: Graph<int>, s: State, n: int, k: nat, bottom: seq<int>) {
    && n in s.lowlinks
    && forall u, z :: Arrow(g, u, z) && k <= |s.stack| && u in s.stack[k..] && z in bottom && z in s.indices
                      ==> s.lowlinks[n] <= s.indices[z]
  }

  /** What a finished call of `visit` on n has done to the state. */
  ghost predicate Visited(g: Graph<int>, s0: State, s: State, active: set<int>, n: int) {
    && Inv(g, s, active) && Grows(s0, s) && n in s.indices
    && (n !in s.onStack ==> s.stack == s0.stack && n in s.lowlinks && s.lowlinks[n] == s0.index)
    && (n in s.onStack ==> Attained(g, s, n, s0.stack) && Bounds(g, s, n, |s0.stack|, s0.stack))
  }

  /** The state between two successors of n, of which `seen` have been looked at. */
  ghost predicate Exploring(g: Graph<int>, s0: State, s: State, active: set<int>, n: int, seen: set<int>) {
    && Inv(g, s, active + {n}) && Grows(s0, s)
    && |s0.stack| < |s.stack| && s.stack[|s0.stack|] == n
    && n in s.indices && n in s.lowlinks && s.lowlinks[n] <= s.indices[n] == s0.index
    && Attained(g, s, n, s0.stack + [n])
    && Bounds(g, s, n, |s0.stack| + 1, s0.stack)
    && forall d :: d in seen ==> d in s.indices && (d in s0.stack ==> s.lowlinks[n] <= s.indices[d])
  }

  function Pushed(s: State, n: int): State {
    s.(index := s.index + 1, stack := s.stack + [n], onStack := s.onStack + {n},
       indices := s.indices[n := s.index], lowlinks := s.lowlinks[n := s.index])
  }

  function Lowered(s: State, n: int, index: int): State
    requires n in s.lowlinks
  {
    s.(lowlinks := s.lowlinks[n := Min(s.lowlinks[n], index)])
  }

  lemma PushBookkeeping(s: State, n: int)
    requires Bookkeeping(s) && n !in s.indices
    ensures Bookkeeping(Pushed(s, n)) && Pushed(s, n).Done() == s.Done() && Grows(s, Pushed(s, n))
  {
    var t := Pushed(s, n);
    forall x | x in t.stack
      ensures x in t.indices && (x in s.stack || x == n)
    {
    }
    forall i, j | 0 <= i < j < |t.stack|
      ensures t.indices[t.stack[i]] < t.indices[t.stack[j]]
    {
      assert t.stack[i] == s.stack[i] && s.stack[i] in s.stack;
      assert j < |s.stack| ==> t.stack[j] == s.stack[j] && s.stack[j] in s.stack;
    }
  }

  lemma PushFrontier(g: Graph<int>, s: State, active: set<int>, n: int)
    requires Frontier(g, s, active) && Pushed(s, n).Done() == s.Done()
    ensures Frontier(g, Pushed(s, n), active + {n})
  {
  }

  lemma PushStackOrder(g: Graph<int>, s: State, active: set<int>, n: int)
    requires Bookkeeping(s) && n !in s.indices && StackOrder(g, s, active)
    requires forall a :: a in active ==> Reach(g, a, n)
    ensures StackOrder(g, Pushed(s, n), active + {n})
  {
    var t := Pushed(s, n);
    ReachSelf(g, n);
    forall y | y in s.stack
      ensures Reach(g, y, n)
    {
      assert HasFallback(g, s.indices, active, y);
      var a :| a in active && FallsBack(g, s.indices, y, a);
      ReachTransitive(g, y, a, n);
    }
    forall y | y in t.stack
      ensures HasFallback(g, t.indices, active + {n}, y)
    {
      if y == n {
        assert n in active + {n} && FallsBack(g, t.indices, y, n);
      } else {
        assert HasFallback(g, s.indices, active, y);
        var a :| a in active && FallsBack(g, s.indices, y, a);
        assert a in active + {n} && FallsBack(g, t.indices, y, a);
      }
    }
  }

  lemma PushFindings(g: Graph<int>, s: State, n: int)
    requires Findings(g, s) && Pushed(s, n).Done() == s.Done()
    ensures Findings(g, Pushed(s, n))
  {
  }
  lemma PushLowlink(g: Graph<int>, s: State, n: int)
    requires Bookkeeping(s) && n !in s.indices
    ensures Attained(g, Pushed(s, n), n, s.stack + [n])
    ensures Bounds(g, Pushed(s, n), n, |s.stack| + 1, s.stack)
  {
    var t := Pushed(s, n);
    ReachSelf(g, n);
    assert n in s.stack + [n] && t.indices[n] == t.lowlinks[n];
    assert t.stack[|s.stack| + 1..] == [];
  }

  lemma PushKeepsInv(g: Graph<int>, s: State, active: set<int>, n: int)
    requires Inv(g, s, active) && n !in s.indices
    requires forall a :: a in active ==> Reach(g, a, n)
    ensures Exploring(g, s, Pushed(s, n), active, n, {})
  {
    PushBookkeeping(s, n);
    PushFrontier(g, s, active, n);
    PushStackOrder(g, s, active, n);
    PushFindings(g, s, n);
    PushLowlink(g, s, n);
  }

  // ----- one step of the successor loop -----

  /** A successor whose component was popped long ago needs nothing. */
  lemma SkipKeepsExploring(g: Graph<int>, s0: State, s: State, active: set<int>, n: int, seen: set<int>, d: int)
    requires Exploring(g, s0, s, active, n, seen)
    requires d in s.indices && d !in s.onStack
    ensures Exploring(g, s0, s, active, n, seen + {d})
  {
    assert d !in s.stack;
    assert forall x :: x in s0.stack ==> x in s.stack;
  }

  /** Positions below k hold exactly the nodes with a smaller index. */
  lemma BelowMeansSmaller(s: State, k: nat, x: int)
    requires Bookkeeping(s) && k < |s.stack| && x in s.stack
    ensures s.stack[k] in s.indices && (x in s.stack[..k] <==> s.indices[x] < s.indices[s.stack[k]])
    ensures x in s.stack[..k] <==> x !in s.stack[k..]
  {
    var j :| 0 <= j < |s.stack| && s.stack[j] == x;
    if j < k {
      assert x == s.stack[..k][j];
    } else {
      assert x == s.stack[k..][j - k];
    }
    assert forall y :: y in s.stack ==> y in s.onStack;
    assert forall i :: 0 <= i < |s.stack| ==> s.stack[i] in s.stack;
  }

  lemma LoweredInv(g: Graph<int>, s: State, active: set<int>, n: int, index: int)
    requires Inv(g, s, active) && n in s.lowlinks
    ensures Inv(g, Lowered(s, n, index), active)
  {
    assert Lowered(s, n, index).Done() == s.Done();
  }

  /** Lowering to the index of a stack node that n reaches keeps the low link attained. */
  lemma LoweredAttained(g: Graph<int>, s: State, n: int, k: nat, m: int)
    requires Bookkeeping(s) && k < |s.stack| && s.stack[k] == n
    requires n in s.lowlinks && s.lowlinks[n] <= s.indices[n]
    requires Attained(g, s, n, s.stack[..k + 1])
    requires m in s.stack && Reach(g, n, m)
    ensures Attained(g, Lowered(s, n, s.indices[m]), n, s.stack[..k + 1])
  {
    var t := Lowered(s, n, s.indices[m]);
    if s.indices[m] < s.lowlinks[n] {
      BelowMeansSmaller(s, k, m);
      assert m in s.stack[..k + 1] && t.indices[m] == t.lowlinks[n];
    } else {
      var w :| w in s.stack[..k + 1] && w in s.indices && s.indices[w] == s.lowlinks[n] && Reach(g, n, w);
      assert t.indices[w] == t.lowlinks[n];
    }
  }

  lemma LoweredBounds(g: Graph<int>, s: State, n: int, index: int, k: nat, bottom: seq<int>)
    requires Bounds(g, s, n, k, bottom)
    ensures Bounds(g, Lowered(s, n, index), n, k, bottom)
  {
  }

  /** A successor still on the stack pulls the low link of n down to its index. */
  lemma BackArrowKeepsExploring(g: Graph<int>, s0: State, s: State, active: set<int>, n: int, seen: set<int>, d: int)
    requires Exploring(g, s0, s, active, n, seen)
    requires Arrow(g, n, d) && d in s.indices && d in s.onStack && n !in s0.lowlinks
    ensures Exploring(g, s0, Lowered(s, n, s.indices[d]), active, n, seen + {d})
  {
    ReachArrow(g, n, d);
    LoweredInv(g, s, active + {n}, n, s.indices[d]);
    assert s.stack[..|s0.stack| + 1] == s0.stack + [n];
    LoweredAttained(g, s, n, |s0.stack|, d);
    LoweredBounds(g, s, n, s.indices[d], |s0.stack| + 1, s0.stack);
  }

  lemma GrowsTransitive(s0: State, s1: State, s2: State)
    requires Grows(s0, s1) && Grows(s1, s2)
    ensures Grows(s0, s2)
  {
  }

  lemma GrowsKeepsAttained(g: Graph<int>, s: State, s1: State, n: int, bottom: seq<int>)
    requires Grows(s, s1) && Attained(g, s, n, bottom)
    ensures Attained(g, s1, n, bottom)
  {
    var m :| m in bottom && m in s.indices && s.indices[m] == s.lowlinks[n] && Reach(g, n, m);
    assert s1.indices[m] == s1.lowlinks[n];
  }

  lemma CallBounds(g: Graph<int>, s0: State, s: State, s1: State, active: set<int>, n: int, d: int)
    requires Bookkeeping(s) && Grows(s0, s) && Grows(s, s1) && |s0.stack| < |s.stack|
    requires n in s.lowlinks && d in s1.lowlinks
    requires Bounds(g, s, n, |s0.stack| + 1, s0.stack)
    requires d !in s1.onStack ==> s1.stack == s.stack
    requires d in s1.onStack ==> Bounds(g, s1, d, |s.stack|, s.stack)
    ensures Bounds(g, Lowered(s1, n, s1.lowlinks[d]), n, |s0.stack| + 1, s0.stack)
  {
    var k := |s0.stack| + 1;
    assert s1.stack[k..] == s.stack[k..] + s1.stack[|s.stack|..];
    forall u, z | Arrow(g, u, z) && u in s1.stack[k..] && z in s0.stack && z in s1.indices
      ensures Min(s1.lowlinks[n], s1.lowlinks[d]) <= s1.indices[z]
    {
      assert z in s.stack && z in s.indices;
    }
  }

  lemma PrefixKept(a: seq<int>, b: seq<int>, c: seq<int>)
    requires a <= b <= c && |a| < |b|
    ensures b[..|a| + 1] == a + [b[|a|]] == c[..|a| + 1] && c[|a|] == b[|a|]
  {
  }

  lemma CallSeen(g: Graph<int>, s0: State, s: State, s1: State, n: int, seen: set<int>, d: int)
    requires Bookkeeping(s) && Grows(s0, s) && Grows(s, s1)
    requires n in s.lowlinks && d in s1.indices && d in s1.lowlinks && d !in s.indices
    requires forall e :: e in seen ==> e in s.indices && (e in s0.stack ==> s.lowlinks[n] <= s.indices[e])
    ensures forall e :: e in seen + {d} ==>
      e in s1.indices && (e in s0.stack ==> Min(s1.lowlinks[n], s1.lowlinks[d]) <= s1.indices[e])
  {
    assert forall x :: x in s0.stack ==> x in s.stack;
  }

  lemma CallAttained(g: Graph<int>, s: State, s1: State, n: int, k: nat, d: int)
    requires Bookkeeping(s) && Bookkeeping(s1) && Grows(s, s1)
    requires k < |s.stack| && s.stack[k] == n && d !in s.indices
    requires n in s1.lowlinks && d in s1.lowlinks && Arrow(g, n, d)
    requires s1.lowlinks[n] <= s1.indices[n] < s.index
    requires Attained(g, s1, n, s1.stack[..k + 1])
    requires d !in s1.onStack ==> s1.lowlinks[d] == s.index
    requires d in s1.onStack ==> Attained(g, s1, d, s.stack)
    ensures Attained(g, Lowered(s1, n, s1.lowlinks[d]), n, s1.stack[..k + 1])
  {
    if d in s1.onStack {
      var m :| m in s.stack && m in s1.indices && s1.indices[m] == s1.lowlinks[d] && Reach(g, d, m);
      ReachArrow(g, n, d);
      ReachTransitive(g, n, d, m);
      assert m in s1.stack;
      LoweredAttained(g, s1, n, k, m);
    } else {
      assert Lowered(s1, n, s1.lowlinks[d]) == s1;
    }
  }

  /** The bookkeeping of n survives the call for d. */
  lemma CallKeepsPosition(
      g: Graph<int>, s0: State, s: State, s1: State, active: set<int>, n: int, seen: set<int>, d: int)
    requires Exploring(g, s0, s, active, n, seen) && Visited(g, s, s1, active + {n}, d)
    ensures Grows(s0, s1) && s0.stack < s1.stack && s1.stack[|s0.stack|] == n
    ensures s1.stack[..|s0.stack| + 1] == s0.stack + [n]
    ensures n in s1.lowlinks && n in s1.indices && d in s1.lowlinks && d in s1.indices
    ensures s1.lowlinks[n] <= s1.indices[n] == s0.index < s.index
    ensures Attained(g, s1, n, s1.stack[..|s0.stack| + 1])
  {
    hide StackOrder, Frontier, Findings, Bounds;
    GrowsTransitive(s0, s, s1);
    PrefixKept(s0.stack, s.stack, s1.stack);
    GrowsKeepsAttained(g, s, s1, n, s0.stack + [n]);
  }

  /** After the recursive call for an unseen successor d, n takes over the low link of d. */
  lemma CallKeepsExploring(
      g: Graph<int>, s0: State, s: State, s1: State, active: set<int>, n: int, seen: set<int>, d: int)
    requires Exploring(g, s0, s, active, n, seen) && Visited(g, s, s1, active + {n}, d)
    requires Arrow(g, n, d) && n !in s0.lowlinks && d !in s.indices && Bookkeeping(s0)
    ensures n in s1.lowlinks && d in s1.lowlinks
    ensures Exploring(g, s0, Lowered(s1, n, s1.lowlinks[d]), active, n, seen + {d})
  {
    hide StackOrder, Frontier, Findings, Attained, Bounds, Bookkeeping;
    CallKeepsPosition(g, s0, s, s1, active, n, seen, d);
    CallSeen(g, s0, s, s1, n, seen, d);
    LoweredInv(g, s1, active + {n}, n, s1.lowlinks[d]);
    CallAttained(g, s, s1, n, |s0.stack|, d);
    CallBounds(g, s0, s, s1, active, n, d);
  }

  // ----- the end of a call -----

  /** A node whose low link is below its own index hands its part of the stack to an older active node. */
  lemma RetireStackOrder(g: Graph<int>, s: State, active: set<int>, n: int, k: nat)
    requires Bookkeeping(s) && StackOrder(g, s, active + {n})
    requires k < |s.stack| && s.stack[k] == n
    requires Attained(g, s, n, s.stack[..k + 1]) && s.lowlinks[n] < s.indices[n]
    ensures StackOrder(g, s, active)
    ensures Attained(g, s, n, s.stack[..k])
  {
    var m :| m in s.stack[..k + 1] && m in s.indices && s.indices[m] == s.lowlinks[n] && Reach(g, n, m);
    assert m in s.stack && m in s.stack[..k];
    assert HasFallback(g, s.indices, active + {n}, m);
    var b :| b in active + {n} && FallsBack(g, s.indices, m, b);
    forall y | y in s.stack
      ensures HasFallback(g, s.indices, active, y)
    {
      assert HasFallback(g, s.indices, active + {n}, y);
      var a :| a in active + {n} && FallsBack(g, s.indices, y, a);
      if a == n {
        ReachTransitive(g, y, n, m);
        ReachTransitive(g, y, m, b);
        assert b in active && FallsBack(g, s.indices, y, b);
      } else {
        assert a in active && FallsBack(g, s.indices, y, a);
      }
    }
  }

  lemma RetireKeepsInv(g: Graph<int>, s0: State, s: State, active: set<int>, n: int, seen: set<int>)
    requires Exploring(g, s0, s, active, n, seen) && Inv(g, s0, active) && n !in s0.indices
    requires forall v :: Arrow(g, n, v) ==> v in seen
    requires s.lowlinks[n] < s.indices[n]
    ensures Visited(g, s0, s, active, n)
  {
    var k := |s0.stack|;
    assert s.stack[..k + 1] == s0.stack + [n] && s.stack[..k] == s0.stack;
    RetireStackOrder(g, s, active, n, k);
    assert n in s.stack;
    assert active <= s.onStack;
    assert s.stack[k..] == [n] + s.stack[k + 1..];
  }

  /** Everything from position k upwards, off the stack. */
  function Popped(s: State, k: nat, cyclic: set<int>): State
    requires k <= |s.stack|
  {
    s.(stack := s.stack[..k], onStack := s.onStack - Elements(s.stack[k..]), cyclic := cyclic,
       components := s.components + {Elements(s.stack[k..])})
  }

  function Elements(l: seq<int>): set<int> { set x | x in l }

  lemma MutualWithRoot(g: Graph<int>, s: State, active: set<int>, n: int, k: nat, y: int)
    requires Bookkeeping(s) && StackOrder(g, s, active + {n})
    requires k < |s.stack| && s.stack[k] == n && y in s.stack[k..]
    requires forall a :: a in active ==> a in s.stack[..k]
    ensures Reach(g, n, y) && Reach(g, y, n)
  {
    var j :| k <= j < |s.stack| && s.stack[j] == y;
    assert Reach(g, s.stack[k], s.stack[j]);
    assert HasFallback(g, s.indices, active + {n}, y);
    var a :| a in active + {n} && FallsBack(g, s.indices, y, a);
    if a != n {
      var i :| 0 <= i < k && s.stack[i] == a;
      assert Reach(g, s.stack[i], s.stack[k]);
      ReachTransitive(g, y, a, n);
    }
  }

  /** The stack from a root upwards, when no arrow leaves it downwards, is one whole component. */
  lemma TopIsComponent(g: Graph<int>, s: State, active: set<int>, n: int, k: nat)
    requires Bookkeeping(s) && Frontier(g, s, active + {n}) && StackOrder(g, s, active + {n})
    requires k < |s.stack| && s.stack[k] == n
    requires forall a :: a in active ==> a in s.stack[..k]
    requires forall v :: Arrow(g, n, v) ==> v in s.indices
    requires forall u, v :: Arrow(g, u, v) && u in s.stack[k..] ==> v !in s.stack[..k]
    ensures IsComponent(g, Elements(s.stack[k..]))
    ensures Closed(g, s.Done() + Elements(s.stack[k..]))
  {
    var c := Elements(s.stack[k..]);
    assert s.stack[k] == s.stack[k..][0];
    forall x | x in s.stack
      ensures x in s.stack[..k] <==> x !in s.stack[k..]
    {
      BelowMeansSmaller(s, k, x);
    }
    forall u, v | Arrow(g, u, v) && u in s.Done() + c
      ensures v in s.Done() + c
    {
      if u !in s.Done() {
        assert u in s.stack && u in s.onStack && u !in active;
      }
    }
    forall y | y in c
      ensures Reach(g, n, y) && Reach(g, y, n)
    {
      MutualWithRoot(g, s, active, n, k, y);
    }
    forall x | x in c
      ensures x in s.onStack
    {
      assert x in s.stack;
    }
    ComponentFromRoot(g, n, c, s.Done());
  }

  /** When the low link of n is its own index, no arrow leaves its part of the stack downwards. */
  lemma NothingFallsBelow(g: Graph<int>, s0: State, s: State, n: int, seen: set<int>)
    requires Bookkeeping(s) && s0.stack < s.stack && s.stack[|s0.stack|] == n
    requires n in s.indices && n in s.lowlinks && s.lowlinks[n] == s.indices[n]
    requires Bounds(g, s, n, |s0.stack| + 1, s0.stack)
    requires forall d :: d in seen ==> d in s.indices && (d in s0.stack ==> s.lowlinks[n] <= s.indices[d])
    requires forall v :: Arrow(g, n, v) ==> v in seen
    ensures forall u, v :: Arrow(g, u, v) && u in s.stack[|s0.stack|..] ==> v !in s0.stack
  {
    var k := |s0.stack|;
    assert s.stack[k..] == [n] + s.stack[k + 1..];
    forall v | v in s0.stack
      ensures v in s.indices && s.indices[v] < s.indices[n]
    {
      assert v in s.stack && v in s.stack[..k];
      BelowMeansSmaller(s, k, v);
    }
  }

  lemma PoppedBookkeeping(s: State, k: nat, cyclic: set<int>)
    requires Bookkeeping(s) && k < |s.stack|
    ensures Bookkeeping(Popped(s, k, cyclic))
    ensures Popped(s, k, cyclic).Done() == s.Done() + Elements(s.stack[k..])
  {
    var t := Popped(s, k, cyclic);
    forall x
      ensures x in t.stack <==> x in t.onStack
    {
      if x in s.stack {
        BelowMeansSmaller(s, k, x);
      }
      assert s.stack == s.stack[..k] + s.stack[k..];
    }
    forall x | x in s.stack[k..]
      ensures x in s.onStack
    {
      assert x in s.stack;
    }
  }

  lemma PoppedStackOrder(g: Graph<int>, s: State, active: set<int>, n: int, k: nat, cyclic: set<int>)
    requires Bookkeeping(s) && StackOrder(g, s, active + {n}) && k < |s.stack| && s.stack[k] == n
    ensures StackOrder(g, Popped(s, k, cyclic), active)
  {
    var t := Popped(s, k, cyclic);
    forall y | y in t.stack
      ensures HasFallback(g, t.indices, active, y)
    {
      assert y in s.stack && HasFallback(g, s.indices, active + {n}, y);
      var a :| a in active + {n} && FallsBack(g, s.indices, y, a);
      BelowMeansSmaller(s, k, y);
      assert a in active && FallsBack(g, t.indices, y, a);
    }
  }

  lemma Singleton(c: set<int>, n: int)
    requires n in c
    ensures |c| > 1 <==> c != {n}
  {
    assert |c - {n}| == |c| - 1;
    if |c| <= 1 {
      assert c - {n} == {};
    }
  }

  lemma PoppedFindings(g: Graph<int>, s: State, n: int, c: set<int>, t: State)
    requires Findings(g, s) && IsComponent(g, c) && n in c
    requires t.Done() == s.Done() + c && t.components == s.components + {c}
    requires t.cyclic == s.cyclic + if c != {n} || Arrow(g, n, n) then c else {}
    ensures Findings(g, t)
  {
    ComponentCycles(g, n, c);
    forall x | x in t.Done()
      ensures Collected(t.components, x)
    {
      if x in s.Done() {
        assert Collected(s.components, x);
      } else {
        assert c in t.components;
      }
    }
  }

  /** When all successors of n have been looked at and its low link is its own index, the stack from n on is one whole
    * component, and its nodes lie on a cycle exactly when there are several of them or n has an arrow to itself.
    */
  lemma RootIsComponent(g: Graph<int>, s0: State, s: State, active: set<int>, n: int, seen: set<int>)
    requires Exploring(g, s0, s, active, n, seen) && Inv(g, s0, active) && n !in s0.indices
    requires forall v :: Arrow(g, n, v) ==> v in seen
    requires s.lowlinks[n] == s.indices[n]
    ensures
      var c := Elements(s.stack[|s0.stack|..]);
      && n in c && IsComponent(g, c) && Closed(g, s.Done() + c)
      && forall x :: x in c ==> (Cyclic(g, x) <==> |c| > 1 || Arrow(g, n, n))
  {
    var k := |s0.stack|;
    assert s.stack[..k] == s0.stack && s.stack[k] == s.stack[k..][0];
    NothingFallsBelow(g, s0, s, n, seen);
    TopIsComponent(g, s, active, n, k);
    var c := Elements(s.stack[k..]);
    Singleton(c, n);
    ComponentCycles(g, n, c);
  }

  /** Popping the component of n, and marking its nodes when they lie on a cycle, completes the visit of n. */
  lemma PoppedKeepsInv(g: Graph<int>, s0: State, s: State, active: set<int>, n: int, seen: set<int>, cyclic: set<int>)
    requires Exploring(g, s0, s, active, n, seen) && Inv(g, s0, active) && n !in s0.indices
    requires forall v :: Arrow(g, n, v) ==> v in seen
    requires s.lowlinks[n] == s.indices[n]
    requires
      var c := Elements(s.stack[|s0.stack|..]);
      cyclic == s.cyclic + if |c| > 1 || Arrow(g, n, n) then c else {}
    ensures Visited(g, s0, Popped(s, |s0.stack|, cyclic), active, n)
  {
    var k := |s0.stack|;
    var c := Elements(s.stack[k..]);
    var t := Popped(s, k, cyclic);
    assert s.stack[..k] == s0.stack && s.stack[k] == s.stack[k..][0];
    RootIsComponent(g, s0, s, active, n, seen);
    PoppedBookkeeping(s, k, cyclic);
    PoppedStackOrder(g, s, active, n, k, cyclic);
    Singleton(c, n);
    PoppedFindings(g, s, n, c, t);
    PoppedFrontier(g, s, active, n, k, cyclic);
  }

  lemma PoppedFrontier(g: Graph<int>, s: State, active: set<int>, n: int, k: nat, cyclic: set<int>)
    requires Bookkeeping(s) && Frontier(g, s, active + {n}) && k < |s.stack| && s.stack[k] == n
    requires Bookkeeping(Popped(s, k, cyclic)) && Closed(g, Popped(s, k, cyclic).Done())
    requires forall a :: a in active ==> a in s.stack[..k]
    ensures Frontier(g, Popped(s, k, cyclic), active)
  {
    assert n in s.stack[k..];
    forall a | a in active
      ensures a in Popped(s, k, cyclic).onStack
    {
      assert a in Popped(s, k, cyclic).stack;
    }
  }

  // ----- the code -----

  /** `visit` */
  method Visit(edges: set<Dependency>, g: Graph<int>, before: State, number: int,
               ghost active: set<int>)
    returns (s: State)
    requires Describes(g, edges)
    requires Inv(g, before, active) && before.indices.Keys <= g.Keys
    requires number in g && number !in before.indices
    requires forall a :: a in active ==> Reach(g, a, number)
    ensures Visited(g, before, s, active, number)
    ensures before.indices.Keys <= s.indices.Keys <= g.Keys
    decreases g.Keys - before.indices.Keys, 0
  {
    hide StackOrder, Frontier, Findings, Attained, Bounds;
    PushKeepsInv(g, before, active, number);
    s := before.(
      index := before.index + 1,
      stack := before.stack + [number],
      onStack := before.onStack + {number},
      indices := before.indices[number := before.index],
      lowlinks := before.lowlinks[number := before.index]);
    s := VisitSuccessors(edges, g, s, number, active, before);
    if s.lowlinks[number] != s.indices[number] {
      RetireKeepsInv(g, before, s, active, number, g[number]);
      return;
    }
    ghost var full := s;
    var component;
    component, s := Pop(s, number, |before.stack|);
    if |component| > 1 || Dependency(number, number) in edges {
      s := s.(cyclic := s.cyclic + component);
    }
    s := s.(components := s.components + {component});
    PoppedKeepsInv(g, before, full, active, number, g[number], s.cyclic);
  }

  /** The loop over the successors of `number`. */
  method VisitSuccessors(edges: set<Dependency>, g: Graph<int>, pushed: State, number: int,
                         ghost active: set<int>, ghost before: State)
    returns (s: State)
    requires Describes(g, edges) && number in g
    requires pushed.indices.Keys <= g.Keys
    requires Bookkeeping(before) && number !in before.lowlinks
    requires Exploring(g, before, pushed, active, number, {})
    requires forall a :: a in active ==> Reach(g, a, number)
    ensures Exploring(g, before, s, active, number, g[number])
    ensures pushed.indices.Keys <= s.indices.Keys <= g.Keys
    decreases g.Keys - pushed.indices.Keys, 2
  {
    s := pushed;
    var pending := g[number];
    ghost var seen := {};
    while pending != {}
      invariant pending <= g[number] && seen + pending == g[number]
      invariant pushed.indices.Keys <= s.indices.Keys <= g.Keys
      invariant Exploring(g, before, s, active, number, seen)
      decreases pending
    {
      var dependent := Any(pending);
      pending := pending - {dependent};
      s := Follow(edges, g, s, number, dependent, active, before, seen);
      seen := seen + {dependent};
    }
    assert seen == g[number];
  }

  /** One pass of that loop. */
  method Follow(edges: set<Dependency>, g: Graph<int>, at: State, number: int, dependent: int,
                ghost active: set<int>, ghost before: State, ghost seen: set<int>)
    returns (s: State)
    requires Describes(g, edges) && number in g && dependent in g[number]
    requires at.indices.Keys <= g.Keys
    requires Bookkeeping(before) && number !in before.lowlinks
    requires Exploring(g, before, at, active, number, seen)
    requires forall a :: a in active ==> Reach(g, a, number)
    ensures Exploring(g, before, s, active, number, seen + {dependent})
    ensures at.indices.Keys <= s.indices.Keys <= g.Keys
    decreases g.Keys - at.indices.Keys, 1
  {
    s := at;
    assert Arrow(g, number, dependent);
    if dependent !in s.indices {
      ReachVia(g, active, number, dependent);
      s := Visit(edges, g, s, dependent, active + {number});
      CallKeepsExploring(g, before, at, s, active, number, seen, dependent);
      s := s.(lowlinks := s.lowlinks[number := Min(s.lowlinks[number], s.lowlinks[dependent])]);
    } else if dependent in s.onStack {
      BackArrowKeepsExploring(g, before, s, active, number, seen, dependent);
      s := s.(lowlinks := s.lowlinks[number := Min(s.lowlinks[number], s.indices[dependent])]);
    } else {
      SkipKeepsExploring(g, before, s, active, number, seen, dependent);
    }
  }

  lemma NothingAbove(l: seq<int>)
    ensures Elements(l[|l|..]) == {} && l[..|l|] == l
  {
  }

  lemma OnStackOnce(s: State, i: nat, j: nat)
    requires Bookkeeping(s) && i < |s.stack| && j < |s.stack|
    ensures s.stack[i] == s.stack[j] ==> i == j
  {
  }

  lemma OneMoreAbove(l: seq<int>, top: nat)
    requires top < |l|
    ensures Elements(l[top..]) == Elements(l[top + 1..]) + {l[top]} && l[..top + 1][..top] == l[..top]
  {
    assert l[top..] == [l[top]] + l[top + 1..];
  }

  /** Pop the stack down to and including `number`. */
  method Pop(full: State, number: int, ghost k: nat) returns (component: set<int>, s: State)
    requires Bookkeeping(full) && k < |full.stack| && full.stack[k] == number
    ensures component == Elements(full.stack[k..])
    ensures s == full.(stack := full.stack[..k], onStack := full.onStack - component)
  {
    hide Elements, Bookkeeping;
    NothingAbove(full.stack);
    component, s := {}, full;
    while s.stack != []
      invariant k < |s.stack| <= |full.stack|
      invariant component == Elements(full.stack[|s.stack|..])
      invariant s == full.(stack := full.stack[..|s.stack|], onStack := full.onStack - component)
      decreases |s.stack|
    {
      ghost var top := |s.stack| - 1;
      var member := s.stack[|s.stack| - 1];
      s := s.(stack := s.stack[..|s.stack| - 1], onStack := s.onStack - {member});
      component := component + {member};
      OneMoreAbove(full.stack, top);
      OnStackOnce(full, k, top);
      if member == number {
        break;
      }
    }
  }

  /** All nodes that lie on a cycle of `edges`, in ascending order; `components` are the popped components. */
  method DependencyCycleNodes(edges: set<Dependency>)
    returns (nodes: seq<int>, components: set<set<int>>)
    ensures forall i, j :: 0 <= i < j < |nodes| ==> nodes[i] < nodes[j]
    ensures forall n :: n in nodes <==> Cyclic(Dependents(edges), n)
    ensures forall c :: c in components ==> c != {} && IsComponent(Dependents(edges), c)
    ensures forall n :: n in Ends(edges) <==> exists c :: c in components && n in c
  {
    var adjacency := BuildAdjacency(edges);
    DependentsDescribe(edges);
    assert adjacency.Keys == Ends(edges);
    var s := VisitAll(edges, adjacency);
    nodes := SortedInts(s.cyclic);
    components := s.components;
  }

  method VisitAll(edges: set<Dependency>, g: Graph<int>) returns (s: State)
    requires Describes(g, edges)
    ensures forall n :: n in s.cyclic <==> Cyclic(g, n)
    ensures {} !in s.components && forall c :: c in s.components ==> IsComponent(g, c)
    ensures forall n :: n in g.Keys <==> exists c :: c in s.components && n in c
  {
    var order := SortedInts(g.Keys);
    s := State(0, [], {}, map[], map[], {}, {});
    var i := 0;
    while i < |order|
      invariant 0 <= i <= |order|
      invariant Inv(g, s, {}) && s.indices.Keys <= g.Keys
      invariant forall j :: 0 <= j < i ==> order[j] in s.indices
    {
      if order[i] !in s.indices {
        s := Visit(edges, g, s, order[i], {});
      }
      i := i + 1;
    }
    AllPopped(g, s);
    forall n: int
      ensures n in s.indices.Keys <==> n in g.Keys
    {
      assert n in g.Keys ==> n in order;
      assert n in order ==> n in s.indices;
    }
    SameElements(s.indices.Keys, g.Keys);
    Report(g, s);
  }

  /** With no call running the stack is empty. */
  lemma AllPopped(g: Graph<int>, s: State)
    requires Inv(g, s, {})
    ensures s.stack == [] && s.Done() == s.indices.Keys
  {
    assert s.stack != [] ==> s.stack[0] in s.stack;
    forall n
      ensures n !in s.stack
    {
      assert !HasFallback(g, s.indices, {}, n);
    }
    assert forall n :: n in s.onStack ==> n in s.stack;
    assert s.onStack == {};
  }

  lemma Report(g: Graph<int>, s: State)
    requires Findings(g, s) && s.Done() == g.Keys
    ensures forall n :: n in s.cyclic <==> Cyclic(g, n)
    ensures forall n :: n in g <==> exists c :: c in s.components && n in c
  {
    forall n
      ensures n in s.cyclic <==> Cyclic(g, n)
    {
      if Cyclic(g, n) {
        CyclicHasArrow(g, n);
      }
    }
    forall n | n in g
      ensures exists c :: c in s.components && n in c
    {
      assert Collected(s.components, n);
    }
  }

  lemma ReachVia(g: Graph<int>, active: set<int>, n: int, d: int)
    requires Arrow(g, n, d)
    requires forall a :: a in active ==> Reach(g, a, n)
    ensures forall a :: a in active + {n} ==> Reach(g, a, d)
  {
    ReachArrow(g, n, d);
    forall a | a in active
      ensures Reach(g, a, d)
    {
      ReachTransitive(g, a, n, d);
    }
  }
}
