/** Linear orders that put the source of every arrow before its target. */
module TopologicalOrder {
  import opened Digraph

  ghost predicate Distinct<T>(s: seq<T>) {
    forall i, j :: 0 <= i < j < |s| ==> s[i] != s[j]
  }

  /** order lists exactly the nodes, once each, and no arrow points backwards in it. */
  ghost predicate IsOrder(g: Graph<int>, order: seq<int>) {
    && Distinct(order)
    && (forall n :: n in order <==> n in g.Keys)
    && NoBackArrow(g, order)
  }

  ghost predicate NoBackArrow(g: Graph<int>, order: seq<int>) {
    forall i, j {:trigger Arrow(g, order[i], order[j])} ::
      0 <= i < |order| && 0 <= j < |order| && Arrow(g, order[i], order[j]) ==> i < j
  }

  ghost function Ancestors(g: Graph<int>, n: int): set<int> {
    set m | m in g.Keys && ReachPlus(g, m, n)
  }

  /** Along an arrow of an acyclic graph the set of ancestors strictly grows. */
  lemma AncestorsGrow(g: Graph<int>, u: int, v: int)
    requires Arrow(g, u, v) && !Cyclic(g, u)
    ensures |Ancestors(g, u)| < |Ancestors(g, v)|
  {
    ReachSelf(g, v);
    ReachArrow(g, u, v);
    forall m | m in Ancestors(g, u)
      ensures m in Ancestors(g, v)
    {
      ReachPlusExtend(g, m, u, v);
    }
    assert u in Ancestors(g, v) && u !in Ancestors(g, u);
    SmallerThan(Ancestors(g, u), Ancestors(g, v), u);
  }

  lemma SmallerThan<T>(a: set<T>, b: set<T>, x: T)
    requires a <= b && x in b && x !in a
    ensures |a| < |b|
  {
    assert |b| == |a| + |b - a|;
  }

  ghost predicate SortedByKey<T(!new)>(order: seq<T>, key: map<T, int>) {
    forall i, j :: 0 <= i < j < |order| && order[i] in key && order[j] in key ==> key[order[i]] <= key[order[j]]
  }

  lemma LargestKey<T(!new)>(s: set<T>, key: map<T, int>)
    requires s <= key.Keys && s != {}
    ensures exists m :: m in s && forall n :: n in s ==> key[n] <= key[m]
    decreases |s|
  {
    var a :| a in s;
    if s != {a} {
      LargestKey(s - {a}, key);
      var m :| m in s - {a} && forall n :: n in s - {a} ==> key[n] <= key[m];
      var best := if key[a] <= key[m] then m else a;
      assert best in s && forall n :: n in s ==> key[n] <= key[best];
    }
  }

  /** Any finite set can be listed by ascending key. */
  lemma {:induction false} ListByKey<T(!new)>(s: set<T>, key: map<T, int>) returns (order: seq<T>)
    requires s <= key.Keys
    ensures Distinct(order) && (forall n :: n in order <==> n in s) && SortedByKey(order, key)
    decreases |s|
  {
    if s == {} {
      order := [];
    } else {
      LargestKey(s, key);
      var m :| m in s && forall n :: n in s ==> key[n] <= key[m];
      var front := ListByKey(s - {m}, key);
      order := front + [m];
      assert forall i :: 0 <= i < |front| ==> front[i] in front;
    }
  }

  /** If the key grows along every arrow, listing by key gives a topological order. */
  lemma KeyGivesOrder(g: Graph<int>, key: map<int, int>) returns (order: seq<int>)
    requires key.Keys == g.Keys
    requires forall u, v {:trigger Arrow(g, u, v)} :: Arrow(g, u, v) && v in key ==> key[u] < key[v]
    ensures IsOrder(g, order) && SortedByKey(order, key)
  {
    order := ListByKey(g.Keys, key);
    forall i, j | 0 <= i < |order| && 0 <= j < |order| && Arrow(g, order[i], order[j])
      ensures i < j
    {
      assert order[i] in order && order[j] in order;
    }
  }

  lemma AcyclicHasOrder(g: Graph<int>) returns (order: seq<int>)
    requires Acyclic(g)
    ensures IsOrder(g, order)
  {
    var key := map n | n in g :: |Ancestors(g, n)|;
    forall u, v | Arrow(g, u, v) && v in key
      ensures key[u] < key[v]
    {
      AncestorsGrow(g, u, v);
    }
    order := KeyGivesOrder(g, key);
  }

  lemma OrderedIsAcyclic(g: Graph<int>, order: seq<int>)
    requires Complete(g) && IsOrder(g, order)
    ensures Acyclic(g)
  {
    forall x
      ensures !Cyclic(g, x)
    {
      if Cyclic(g, x) {
        CyclicHasArrow(g, x);
        assert x in order;
        var i :| 0 <= i < |order| && order[i] == x;
        NotOnCycle(g, order, i);
      }
    }
  }

  /** What lies after a position is never left, so no node can come back to itself. */
  lemma NotOnCycle(g: Graph<int>, order: seq<int>, i: nat)
    requires Complete(g) && IsOrder(g, order) && i < |order|
    ensures !Cyclic(g, order[i])
  {
    var later := set j | i < j < |order| :: order[j];
    forall u, v | Arrow(g, u, v) && (u in later || u == order[i])
      ensures v in later
    {
      assert v in g.Keys && v in order;
      var k :| 0 <= k < |order| && order[k] == v;
      var j :| i <= j < |order| && order[j] == u;
      assert Arrow(g, order[j], order[k]);
    }
    assert Closed(g, later);
    if Cyclic(g, order[i]) {
      CyclicLeavesInto(g, order[i], later);
    }
  }

  lemma CyclicLeavesInto(g: Graph<int>, x: int, s: set<int>)
    requires Closed(g, s) && Cyclic(g, x)
    requires forall v :: Arrow(g, x, v) ==> v in s
    ensures x in s
  {
    var z := FirstArrow(g, x, x);
    ReachStaysClosed(g, s, z, x);
  }

  /** A finite graph is acyclic exactly when its nodes have a topological order. */
  lemma AcyclicIffOrder(g: Graph<int>)
    requires Complete(g)
    ensures Acyclic(g) <==> exists order :: IsOrder(g, order)
  {
    if Acyclic(g) {
      var order := AcyclicHasOrder(g);
    }
    if order :| IsOrder(g, order) {
      OrderedIsAcyclic(g, order);
    }
  }
}
