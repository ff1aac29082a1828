/** Walks in a directed graph given by adjacency lists. */
module Walks {
  import opened Sequences

  type Graph<T> = map<T, seq<T>>

  predicate Edge<T(==)>(g: Graph<T>, a: T, b: T) {
    a in g && b in g[a]
  }

  /** A nonempty sequence of nodes, each joined to the next by an edge. */
  ghost predicate Walk<T>(g: Graph<T>, w: seq<T>) {
    && w != []
    && forall i, j :: 0 <= i && j == i + 1 && j < |w| ==> Edge(g, w[i], w[j])
  }

  ghost predicate WalkFromTo<T>(g: Graph<T>, w: seq<T>, a: T, b: T) {
    Walk(g, w) && w[0] == a && w[|w| - 1] == b
  }

  /** A directed cycle: at least one edge, and back where it started. */
  ghost predicate ClosedWalk<T>(g: Graph<T>, c: seq<T>) {
    |c| >= 2 && Walk(g, c) && c[0] == c[|c| - 1]
  }

  /** A cycle that repeats no node but its first. */
  ghost predicate SimpleCycle<T>(g: Graph<T>, c: seq<T>) {
    ClosedWalk(g, c) && Distinct(c[..|c| - 1])
  }

  ghost predicate Cyclic<T(!new)>(g: Graph<T>) {
    exists c :: ClosedWalk(g, c)
  }

  /** Some walk from `a` ends on a cycle. */
  ghost predicate ReachesCycle<T(!new)>(g: Graph<T>, a: T) {
    exists w, c :: ClosedWalk(g, c) && WalkFromTo(g, w, a, c[0])
  }

  function Nodes<T(==)>(g: Graph<T>): set<T> {
    g.Keys + set k, b | k in g && b in g[k] :: b
  }

  lemma EdgeIntoNodes<T(!new)>(g: Graph<T>, a: T, b: T)
    requires Edge(g, a, b)
    ensures b in Nodes(g)
  {
  }

  lemma KeyIsNode<T(!new)>(g: Graph<T>, a: T)
    requires a in g
    ensures a in Nodes(g)
  {
  }

  lemma CycleReachesItself<T(!new)>(g: Graph<T>, c: seq<T>)
    requires ClosedWalk(g, c)
    ensures ReachesCycle(g, c[0])
  {
    assert WalkFromTo(g, [c[0]], c[0], c[0]);
  }

  lemma EdgeToCycle<T(!new)>(g: Graph<T>, a: T, b: T)
    requires Edge(g, a, b) && ReachesCycle(g, b)
    ensures ReachesCycle(g, a)
  {
    var w, c :| ClosedWalk(g, c) && WalkFromTo(g, w, b, c[0]);
    assert WalkFromTo(g, [a] + w, a, c[0]);
  }

  lemma WalkStep<T>(g: Graph<T>, w: seq<T>, b: T)
    requires w != []
    ensures Walk(g, w + [b]) <==> Walk(g, w) && Edge(g, w[|w| - 1], b)
  {
    var t := w + [b];
    if Walk(g, t) {
      forall i, j | 0 <= i && j == i + 1 && j < |w| ensures Edge(g, w[i], w[j]) { assert Edge(g, t[i], t[j]); }
      assert Edge(g, t[|w| - 1], t[|w|]);
    }
  }

  /** Every node of a walk whose last node reaches a cycle reaches it too. */
  lemma {:induction false} WalkToCycle<T(!new)>(g: Graph<T>, w: seq<T>)
    requires Walk(g, w) && ReachesCycle(g, w[|w| - 1])
    ensures forall i :: 0 <= i < |w| ==> ReachesCycle(g, w[i])
  {
    if |w| > 1 {
      var front := w[..|w| - 1];
      assert Edge(g, w[|w| - 2], w[|w| - 1]);
      EdgeToCycle(g, w[|w| - 2], w[|w| - 1]);
      WalkToCycle(g, front);
      forall i | 0 <= i < |w| ensures ReachesCycle(g, w[i]) {
        if i < |front| { assert w[i] == front[i]; }
      }
    }
  }

  lemma ReachesCycleIsKey<T(!new)>(g: Graph<T>, a: T)
    requires ReachesCycle(g, a)
    ensures a in g
  {
    var w, c :| ClosedWalk(g, c) && WalkFromTo(g, w, a, c[0]);
    if |w| > 1 { assert Edge(g, w[0], w[1]); } else { assert Edge(g, c[0], c[1]); }
  }

  lemma NeighborReaches<T(!new)>(g: Graph<T>, a: T)
    requires ReachesCycle(g, a)
    ensures a in g && exists b :: b in g[a] && ReachesCycle(g, b)
  {
    var w, c :| ClosedWalk(g, c) && WalkFromTo(g, w, a, c[0]);
    if |w| > 1 {
      assert Edge(g, w[0], w[1]) && WalkFromTo(g, w[1..], w[1], c[0]);
      assert w[1] in g[a] && ReachesCycle(g, w[1]);
    } else {
      assert Edge(g, c[0], c[1]) && WalkFromTo(g, c[1..], c[1], c[0]);
      assert c[1] in g[a] && ReachesCycle(g, c[1]);
    }
  }

  /** Every edge out of `order[i]` leads to an earlier element: a depth-first finishing order. */
  ghost predicate Topological<T(!new)>(g: Graph<T>, order: seq<T>) {
    && Distinct(order)
    && forall i, b :: 0 <= i < |order| && Edge(g, order[i], b) ==> b in order[..i]
  }

  lemma TopologicalStep<T(!new)>(g: Graph<T>, order: seq<T>, a: T)
    requires Topological(g, order) && a !in order
    requires forall b :: Edge(g, a, b) ==> b in order
    ensures Topological(g, order + [a])
  {
    DistinctStep(order, a);
    var t := order + [a];
    forall i, b | 0 <= i < |t| && Edge(g, t[i], b) ensures b in t[..i] {
      if i < |order| { assert t[..i] == order[..i]; } else { assert t[..i] == order; }
    }
  }

  /** Along a walk that starts in a topological order, positions strictly decrease. */
  lemma {:induction false} TopologicalDescent<T(!new)>(g: Graph<T>, order: seq<T>, w: seq<T>, i: nat)
    returns (j: nat)
    requires Topological(g, order) && Walk(g, w) && i < |order| && w[0] == order[i]
    ensures j <= i && order[j] == w[|w| - 1]
    ensures |w| > 1 ==> j < i
  {
    if |w| == 1 {
      j := i;
    } else {
      assert Edge(g, w[0], w[1]);
      var k :| 0 <= k < i && order[k] == w[1];
      assert Walk(g, w[1..]);
      j := TopologicalDescent(g, order, w[1..], k);
    }
  }

  /** No node of a topological order reaches a cycle. */
  lemma TopologicalReachesNoCycle<T(!new)>(g: Graph<T>, order: seq<T>, a: T)
    requires Topological(g, order) && a in order
    ensures !ReachesCycle(g, a)
  {
    if ReachesCycle(g, a) {
      var w, c :| ClosedWalk(g, c) && WalkFromTo(g, w, a, c[0]);
      var i :| 0 <= i < |order| && order[i] == a;
      var j := TopologicalDescent(g, order, w, i);
      var k := TopologicalDescent(g, order, c, j);
      assert false;
    }
  }
}
