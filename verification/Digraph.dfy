/** Finite directed graphs, given as adjacency maps, and the reachability they induce. */
module Digraph {
  type Graph<T> = map<T, set<T>>

  ghost predicate Arrow<T>(g: Graph<T>, x: T, y: T) {
    x in g && y in g[x]
  }

  /** Every arrow ends at a node that has an entry of its own. */
  ghost predicate Complete<T>(g: Graph<T>) {
    forall x {:trigger g[x]} :: x in g ==> g[x] <= g.Keys
  }

  /** A walk is a non-empty sequence of nodes in which each node has an arrow to the next. */
  ghost predicate Walk<T(!new)>(g: Graph<T>, p: seq<T>) {
    |p| > 0 && forall i {:trigger StepAt(g, p, i)} :: 0 <= i < |p| - 1 ==> StepAt(g, p, i)
  }

  ghost predicate StepAt<T>(g: Graph<T>, p: seq<T>, i: nat)
    requires i + 1 < |p|
  {
    Arrow(g, p[i], p[i + 1])
  }

  ghost predicate WalkBetween<T(!new)>(g: Graph<T>, p: seq<T>, x: T, y: T) {
    Walk(g, p) && p[0] == x && p[|p| - 1] == y
  }

  /** y can be reached from x by zero or more arrows. */
  ghost predicate Reach<T(!new)>(g: Graph<T>, x: T, y: T) {
    exists p :: WalkBetween(g, p, x, y)
  }

  /** y can be reached from x by one or more arrows. */
  ghost predicate ReachPlus<T(!new)>(g: Graph<T>, x: T, y: T) {
    exists z :: Arrow(g, x, z) && Reach(g, z, y)
  }

  /** x lies on a cycle; a self-loop is a cycle. */
  ghost predicate Cyclic<T(!new)>(g: Graph<T>, x: T) {
    ReachPlus(g, x, x)
  }

  ghost predicate Acyclic<T(!new)>(g: Graph<T>) {
    forall x :: !Cyclic(g, x)
  }

  /** No arrow leaves s. */
  ghost predicate Closed<T(!new)>(g: Graph<T>, s: set<T>) {
    forall x, y {:trigger Arrow(g, x, y)} :: Arrow(g, x, y) && x in s ==> y in s
  }

  /** c, unless empty, is one whole strongly connected component. */
  ghost predicate IsComponent<T(!new)>(g: Graph<T>, c: set<T>) {
    forall x, y {:trigger Mutual(g, x, y)} :: x in c ==> (y in c <==> Mutual(g, x, y))
  }

  ghost predicate Mutual<T(!new)>(g: Graph<T>, x: T, y: T) {
    Reach(g, x, y) && Reach(g, y, x)
  }

  lemma ReachSelf<T(!new)>(g: Graph<T>, x: T)
    ensures Reach(g, x, x)
  {
    assert WalkBetween(g, [x], x, x);
  }

  lemma ReachArrow<T(!new)>(g: Graph<T>, x: T, y: T)
    requires Arrow(g, x, y)
    ensures Reach(g, x, y)
  {
    assert StepAt(g, [x, y], 0);
    assert WalkBetween(g, [x, y], x, y);
  }

  lemma WalksJoin<T(!new)>(g: Graph<T>, p: seq<T>, q: seq<T>)
    requires Walk(g, p) && Walk(g, q) && p[|p| - 1] == q[0]
    ensures Walk(g, p + q[1..])
  {
    var r := p + q[1..];
    forall i | 0 <= i < |r| - 1
      ensures StepAt(g, r, i)
    {
      if i < |p| - 1 {
        assert StepAt(g, p, i);
      } else {
        assert StepAt(g, q, i + 1 - |p|);
      }
    }
  }

  lemma WalkTail<T(!new)>(g: Graph<T>, p: seq<T>)
    requires Walk(g, p) && |p| > 1
    ensures Arrow(g, p[0], p[1]) && Walk(g, p[1..])
  {
    assert StepAt(g, p, 0);
    forall i | 0 <= i < |p| - 2
      ensures StepAt(g, p[1..], i)
    {
      assert StepAt(g, p, i + 1);
    }
  }

  lemma ReachTransitive<T(!new)>(g: Graph<T>, x: T, y: T, z: T)
    requires Reach(g, x, y) && Reach(g, y, z)
    ensures Reach(g, x, z)
  {
    var p :| WalkBetween(g, p, x, y);
    var q :| WalkBetween(g, q, y, z);
    WalksJoin(g, p, q);
    assert WalkBetween(g, p + q[1..], x, z);
  }

  /** Reachability unfolds at its first arrow. */
  lemma ReachUnfold<T(!new)>(g: Graph<T>, x: T, y: T)
    ensures Reach(g, x, y) <==> x == y || ReachPlus(g, x, y)
  {
    if Reach(g, x, y) && x != y {
      var p :| WalkBetween(g, p, x, y);
      WalkTail(g, p);
      assert WalkBetween(g, p[1..], p[1], y);
    }
    if x == y {
      ReachSelf(g, x);
    }
    if ReachPlus(g, x, y) {
      var z :| Arrow(g, x, z) && Reach(g, z, y);
      ReachArrow(g, x, z);
      ReachTransitive(g, x, z, y);
    }
  }

  lemma ReachPlusExtend<T(!new)>(g: Graph<T>, x: T, y: T, z: T)
    requires ReachPlus(g, x, y) && Reach(g, y, z)
    ensures ReachPlus(g, x, z)
  {
    var w :| Arrow(g, x, w) && Reach(g, w, y);
    ReachTransitive(g, w, y, z);
  }

  lemma {:induction false} WalkStaysClosed<T(!new)>(g: Graph<T>, s: set<T>, p: seq<T>)
    requires Closed(g, s) && Walk(g, p) && p[0] in s
    ensures p[|p| - 1] in s
    decreases |p|
  {
    if |p| > 1 {
      WalkTail(g, p);
      WalkStaysClosed(g, s, p[1..]);
    }
  }

  lemma ReachStaysClosed<T(!new)>(g: Graph<T>, s: set<T>, x: T, y: T)
    requires Closed(g, s) && x in s && Reach(g, x, y)
    ensures y in s
  {
    var p :| WalkBetween(g, p, x, y);
    WalkStaysClosed(g, s, p);
  }

  /** More arrows keep what was reachable. */
  lemma {:induction false} WalkInLarger<T(!new)>(g: Graph<T>, h: Graph<T>, p: seq<T>)
    requires Walk(g, p)
    requires forall x, y {:trigger Arrow(g, x, y)} :: Arrow(g, x, y) ==> Arrow(h, x, y)
    ensures Walk(h, p)
  {
    forall i | 0 <= i < |p| - 1
      ensures StepAt(h, p, i)
    {
      assert StepAt(g, p, i);
    }
  }

  lemma CyclicInLarger<T(!new)>(g: Graph<T>, h: Graph<T>, x: T)
    requires Cyclic(g, x)
    requires forall u, v {:trigger Arrow(g, u, v)} :: Arrow(g, u, v) ==> Arrow(h, u, v)
    ensures Cyclic(h, x)
  {
    var z :| Arrow(g, x, z) && Reach(g, z, x);
    var p :| WalkBetween(g, p, z, x);
    WalkInLarger(g, h, p);
    assert WalkBetween(h, p, z, x);
  }

  lemma FirstArrow<T(!new)>(g: Graph<T>, x: T, y: T) returns (z: T)
    requires ReachPlus(g, x, y)
    ensures Arrow(g, x, z) && Reach(g, z, y)
  {
    z :| Arrow(g, x, z) && Reach(g, z, y);
  }

  lemma SomeCycle<T(!new)>(g: Graph<T>) returns (x: T)
    requires !Acyclic(g)
    ensures Cyclic(g, x)
  {
    x :| Cyclic(g, x);
  }

  lemma CyclicHasArrow<T(!new)>(g: Graph<T>, x: T)
    requires Cyclic(g, x)
    ensures x in g
  {
    var z :| Arrow(g, x, z) && Reach(g, z, x);
  }

  /** A set all of whose members reach and are reached from a root, and which can only be left
    * into a part that never returns, is one whole component.
    */
  lemma ComponentFromRoot<T(!new)>(g: Graph<T>, root: T, c: set<T>, done: set<T>)
    requires root in c && c !! done
    requires Closed(g, done) && Closed(g, done + c)
    requires forall y :: y in c ==> Reach(g, root, y) && Reach(g, y, root)
    ensures IsComponent(g, c)
  {
    forall x, y | x in c
      ensures y in c <==> Mutual(g, x, y)
    {
      if y in c {
        ReachTransitive(g, x, root, y);
        ReachTransitive(g, y, root, x);
      } else if Reach(g, x, y) && Reach(g, y, x) {
        ReachStaysClosed(g, done + c, x, y);
        ReachStaysClosed(g, done, y, x);
      }
    }
  }

  /** A component is cyclic throughout, or is a single node without a self-loop and not cyclic at all. */
  lemma ComponentCycles<T(!new)>(g: Graph<T>, root: T, c: set<T>)
    requires IsComponent(g, c) && root in c
    ensures forall x :: x in c ==> (Cyclic(g, x) <==> c != {root} || Arrow(g, root, root))
  {
    forall x | x in c
      ensures Cyclic(g, x) <==> c != {root} || Arrow(g, root, root)
    {
      if c != {root} {
        var y :| y in c && y != x;
        assert Mutual(g, x, y);
        ReachUnfold(g, x, y);
        ReachPlusExtend(g, x, y, x);
      } else if Arrow(g, root, root) {
        ReachSelf(g, x);
      } else {
        forall z | Arrow(g, x, z) && Reach(g, z, x)
          ensures z in c
        {
          ReachArrow(g, x, z);
          assert Mutual(g, x, z);
        }
      }
    }
  }
}
