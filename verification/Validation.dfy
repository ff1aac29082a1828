/**
 Foreign-key cycle detection: a depth-first search whose `visited` and `rec_stack`
 sets are shared by the searches from all start nodes.
 */
module Validation {
  import opened Wrappers
  import opened Sequences
  import opened Walks
  import opened Registry

  /** The targets of the foreign keys of `m`, in registration order. */
  function Targets(rels: seq<RelationshipMetadata>, m: string): seq<string> {
    Map((r: RelationshipMetadata) => r.toModel,
        Filter((r: RelationshipMetadata) => r.relationshipType == ForeignKey && r.fromModel == m, rels))
  }

  /** The adjacency map of the foreign keys among `rels`; models without one are no keys. */
  function ForeignKeyGraph(rels: seq<RelationshipMetadata>): Graph<string> {
    map m | m in Elems(Map((r: RelationshipMetadata) => r.fromModel, rels)) && Targets(rels, m) != [] :: Targets(rels, m)
  }

  /** The number of foreign keys. */
  function ForeignKeys(rels: seq<RelationshipMetadata>): nat {
    |Filter((r: RelationshipMetadata) => r.relationshipType == ForeignKey, rels)|
  }

  /** An edge is a registered foreign key, and neither a many-to-many nor a one-to-one relationship. */
  lemma EdgesExactly(rels: seq<RelationshipMetadata>, a: string, b: string)
    ensures Edge(ForeignKeyGraph(rels), a, b) <==>
            exists r :: r in rels && r.relationshipType.ForeignKey? && r.fromModel == a && r.toModel == b
  {
    var key := (r: RelationshipMetadata) => r.relationshipType == ForeignKey && r.fromModel == a;
    var mine := Filter(key, rels);
    GraphLookup(rels, a);
    hide ForeignKeyGraph;
    if Edge(ForeignKeyGraph(rels), a, b) {
      var i :| 0 <= i < |Targets(rels, a)| && Targets(rels, a)[i] == b;
      FilterMembers(key, rels, mine[i]);
    }
    if r :| r in rels && r.relationshipType.ForeignKey? && r.fromModel == a && r.toModel == b {
      FilterMembers(key, rels, r);
      var i :| 0 <= i < |mine| && mine[i] == r;
      assert Targets(rels, a)[i] == b;
    }
  }

  method BuildGraph(rels: seq<RelationshipMetadata>) returns (g: Graph<string>)
    ensures g == ForeignKeyGraph(rels)
  {
    hide ForeignKeyGraph;
    NoEdges();
    g := map[];
    for i := 0 to |rels|
      invariant g == ForeignKeyGraph(rels[..i])
    {
      var r := rels[i];
      if r.relationshipType == ForeignKey {
        g := g[r.fromModel := (if r.fromModel in g then g[r.fromModel] else []) + [r.toModel]];
      }
      assert rels[..i + 1] == rels[..i] + [r];
      AddEdge(rels[..i], r);
    }
    assert rels[..|rels|] == rels;
  }

  lemma NoEdges()
    ensures ForeignKeyGraph([]) == map[]
  {
  }

  lemma AddEdge(rels: seq<RelationshipMetadata>, r: RelationshipMetadata)
    ensures var g := ForeignKeyGraph(rels);
            ForeignKeyGraph(rels + [r]) ==
            if r.relationshipType == ForeignKey
            then g[r.fromModel := (if r.fromModel in g then g[r.fromModel] else []) + [r.toModel]]
            else g
  {
    hide *;
    forall m ensures Targets(rels + [r], m) ==
                     Targets(rels, m) + (if r.relationshipType == ForeignKey && r.fromModel == m then [r.toModel] else [])
    {
      TargetsStep(rels, r, m);
    }
    forall m ensures m in ForeignKeyGraph(rels) <==> Targets(rels, m) != []
             ensures m in ForeignKeyGraph(rels) ==> ForeignKeyGraph(rels)[m] == Targets(rels, m)
    {
      GraphLookup(rels, m);
    }
    forall m ensures m in ForeignKeyGraph(rels + [r]) <==> Targets(rels + [r], m) != []
             ensures m in ForeignKeyGraph(rels + [r]) ==> ForeignKeyGraph(rels + [r])[m] == Targets(rels + [r], m)
    {
      GraphLookup(rels + [r], m);
    }
    var g, added := ForeignKeyGraph(rels), ForeignKeyGraph(rels + [r]);
    var want := if r.relationshipType == ForeignKey
                then g[r.fromModel := (if r.fromModel in g then g[r.fromModel] else []) + [r.toModel]]
                else g;
    assert forall m :: m in added <==> m in want;
    assert forall m :: m in added ==> added[m] == want[m];
    assert added == want;
  }

  lemma GraphLookup(rels: seq<RelationshipMetadata>, m: string)
    ensures m in ForeignKeyGraph(rels) <==> Targets(rels, m) != []
    ensures m in ForeignKeyGraph(rels) ==> ForeignKeyGraph(rels)[m] == Targets(rels, m)
  {
    var p := (r: RelationshipMetadata) => r.relationshipType == ForeignKey && r.fromModel == m;
    if Targets(rels, m) != [] {
      var r := Filter(p, rels)[0];
      FilterMembers(p, rels, r);
      var i :| 0 <= i < |rels| && rels[i] == r;
      assert Map((r: RelationshipMetadata) => r.fromModel, rels)[i] == m;
    }
  }

  lemma TargetsStep(rels: seq<RelationshipMetadata>, r: RelationshipMetadata, m: string)
    ensures Targets(rels + [r], m) == Targets(rels, m) + (if r.relationshipType == ForeignKey && r.fromModel == m then [r.toModel] else [])
  {
  }

  /** The number of edges leaving the listed nodes: one recursive call each when they are expanded. */
  function OutEdges(g: Graph<string>, nodes: seq<string>): nat {
    if nodes == [] then 0
    else OutEdges(g, nodes[..|nodes| - 1]) + OutDegree(g, nodes[|nodes| - 1])
  }

  function OutDegree(g: Graph<string>, node: string): nat {
    if node in g then |g[node]| else 0
  }

  lemma OutEdgesStep(g: Graph<string>, nodes: seq<string>, n: string)
    ensures OutEdges(g, nodes + [n]) == OutEdges(g, nodes) + OutDegree(g, n)
  {
  }

  /** Where `n` first occurs in `path`. */
  function Position(path: seq<string>, n: string): (k: nat)
    requires n in path
    ensures k < |path| && path[k] == n && n !in path[..k]
  {
    if path[0] == n then 0
    else
      assert n in path[1..];
      var k := Position(path[1..], n) + 1;
      assert path[..k] == [path[0]] + path[1..][..k - 1];
      k
  }

  // ----- The way a search goes -----

  ghost function FirstReaching(g: Graph<string>, ns: seq<string>): (b: string)
    requires exists n :: n in ns && ReachesCycle(g, n)
    ensures b in ns && ReachesCycle(g, b)
  {
    if ReachesCycle(g, ns[0]) then ns[0]
    else
      assert ns == [ns[0]] + ns[1..];
      FirstReaching(g, ns[1..])
  }

  lemma {:induction false} FirstReachingIs(g: Graph<string>, ns: seq<string>, i: nat)
    requires i < |ns| && ReachesCycle(g, ns[i]) && forall j :: 0 <= j < i ==> !ReachesCycle(g, ns[j])
    ensures (exists n :: n in ns && ReachesCycle(g, n)) && FirstReaching(g, ns) == ns[i]
  {
    hide ReachesCycle;
    assert ns[i] in ns;
    if i > 0 {
      assert ns[1..][i - 1] == ns[i];
      FirstReachingIs(g, ns[1..], i - 1);
    }
  }

  /** The first neighbour that reaches a cycle: the one through which a search from `a` finds its cycle. */
  ghost function Onward(g: Graph<string>, a: string): (b: string)
    requires ReachesCycle(g, a)
    ensures Edge(g, a, b) && ReachesCycle(g, b)
  {
    NeighborReaches(g, a);
    FirstReaching(g, g[a])
  }

  /** The path on which a search comes to an abandoned node or closes on itself. */
  ghost function Trail(g: Graph<string>, leftover: set<string>, path: seq<string>, node: string): (trail: seq<string>)
    requires ReachesCycle(g, node)
    ensures path + [node] <= trail
    decreases Nodes(g) - Elems(path)
  {
    if node in leftover || node in path then path + [node]
    else
      ReachesCycleIsKey(g, node);
      KeyIsNode(g, node);
      ElemsStep(path, node);
      Trail(g, leftover, path + [node], Onward(g, node))
  }

  /** From where the last node first occurs. */
  ghost function Report(trail: seq<string>): seq<string>
    requires trail != []
  {
    trail[Position(trail, trail[|trail| - 1])..]
  }

  /** A search that came from `path` to `node` ended with this path, stack and report. */
  ghost predicate Found(g: Graph<string>, leftover: set<string>, path: seq<string>, node: string,
                        path': seq<string>, recStack: set<string>, report: seq<string>)
  {
    && ReachesCycle(g, node)
    && path' == Trail(g, leftover, path, node)
    && recStack == leftover + Elems(path')
    && report == Report(path')
  }

  /** What one search may report: a cycle of its own, or the node where it ran into an abandoned path. */
  ghost predicate ValidReport(g: Graph<string>, report: seq<string>, leftover: set<string>) {
    || (SimpleCycle(g, report) && Elems(report) !! leftover)
    || (|report| == 1 && report[0] in leftover && ReachesCycle(g, report[0]))
  }

  ghost predicate AllReachCycles(g: Graph<string>, nodes: set<string>) {
    forall n :: n in nodes ==> ReachesCycle(g, n)
  }

  /** A visited node is finished or still on the stack; finished nodes are in topological order. */
  ghost predicate SettledSets(g: Graph<string>, visited: set<string>, recStack: set<string>,
                              finished: seq<string>, expanded: seq<string>)
  {
    && visited == Elems(finished) + recStack && Elems(finished) !! recStack
    && visited <= Nodes(g)
    && Topological(g, finished)
    && Distinct(expanded) && Elems(expanded) == visited
  }

  /** The stack is the current path and what earlier searches abandoned, which all reach a cycle. */
  ghost predicate StackIsPath(g: Graph<string>, recStack: set<string>, leftover: set<string>, path: seq<string>) {
    && recStack == leftover + Elems(path) && leftover !! Elems(path)
    && Distinct(path) && (path == [] || Walk(g, path))
    && AllReachCycles(g, leftover)
  }

  lemma Push(g: Graph<string>, visited: set<string>, recStack: set<string>, leftover: set<string>,
             finished: seq<string>, expanded: seq<string>, path: seq<string>, node: string)
    requires SettledSets(g, visited, recStack, finished, expanded) && StackIsPath(g, recStack, leftover, path)
    requires node in Nodes(g) && node !in visited
    requires path == [] || Edge(g, path[|path| - 1], node)
    ensures SettledSets(g, visited + {node}, recStack + {node}, finished, expanded + [node])
    ensures StackIsPath(g, recStack + {node}, leftover, path + [node])
    ensures node !in recStack && node !in leftover && node !in path
  {
  }

  lemma Pop(g: Graph<string>, visited: set<string>, recStack: set<string>, leftover: set<string>,
            finished: seq<string>, expanded: seq<string>, path: seq<string>, node: string)
    requires SettledSets(g, visited, recStack, finished, expanded)
    requires StackIsPath(g, recStack, leftover, path + [node])
    requires forall b :: Edge(g, node, b) ==> b in finished
    ensures SettledSets(g, visited, recStack - {node}, finished + [node], expanded)
    ensures StackIsPath(g, recStack - {node}, leftover, path)
  {
    DistinctStep(path, node);
    ElemsStep(path, node);
    ElemsStep(finished, node);
    if path != [] { WalkStep(g, path, node); }
    assert node in recStack;
    TopologicalStep(g, finished, node);
  }

  lemma EdgesAreNeighbors(g: Graph<string>, node: string)
    ensures forall b :: Edge(g, node, b) <==> node in g && b in g[node]
  {
  }

  class CycleSearch {
    const graph: Graph<string>
    var visited: set<string>
    var recStack: set<string>
    var path: seq<string>

    ghost var finished: seq<string>  // nodes left with no cycle found, in finishing order
    ghost var leftover: set<string>  // entries of recStack that earlier searches abandoned
    ghost var expanded: seq<string>  // nodes whose neighbours were walked, in order
    ghost var calls: nat

    constructor (g: Graph<string>)
      ensures graph == g && Idle() && recStack == {} && expanded == [] && calls == 0
    {
      graph := g;
      visited, recStack, path := {}, {}, [];
      finished, leftover, expanded, calls := [], {}, [], 0;
    }

    /** Holds whether or not a cycle has been reported. */
    ghost predicate Settled()
      reads this
    {
      SettledSets(graph, visited, recStack, finished, expanded)
    }

    ghost predicate Consistent()
      reads this
    {
      Settled() && StackIsPath(graph, recStack, leftover, path)
    }

    /** Between two searches: every node still on the stack was abandoned on the way to a cycle. */
    ghost predicate Idle()
      reads this
    {
      Settled() && AllReachCycles(graph, recStack)
    }

    method DetectCycle(node: string) returns (cycle: Option<seq<string>>)
      requires Consistent()
      requires node in Nodes(graph)
      requires path == [] || Edge(graph, path[|path| - 1], node)
      modifies this
      decreases Nodes(graph) - visited
      ensures Settled() && old(visited) <= visited && leftover == old(leftover) && old(finished) <= finished
      ensures cycle.None? ==>
        Consistent() && path == old(path) && recStack == old(recStack) && node in finished
      ensures cycle.Some? ==> Found(graph, leftover, old(path), node, path, recStack, cycle.value)
      ensures calls + OutEdges(graph, old(expanded)) <= old(calls) + 1 + OutEdges(graph, expanded)
    {
      hide SettledSets, StackIsPath, ValidReport, ReachesCycle, OutEdges, Nodes, Elems, Edge, Idle, AllReachCycles, Found;
      calls := calls + 1;
      if node in recStack {
        FoundHere(graph, recStack, leftover, path, node);
        path := path + [node];
        var cycleStart := Position(path, node);
        return Some(path[cycleStart..]);
      }
      if node in visited {
        OffStack(graph, visited, recStack, finished, expanded, node);
        return None;
      }

      ghost var outer := path;
      Push(graph, visited, recStack, leftover, finished, expanded, path, node);
      visited := visited + {node};
      recStack := recStack + {node};
      path := path + [node];
      expanded := expanded + [node];
      OutEdgesStep(graph, old(expanded), node);
      EdgesAreNeighbors(graph, node);

      if node in graph {
        var neighbors := graph[node];
        for i := 0 to |neighbors|
          invariant SettledSets(graph, visited, recStack, finished, expanded) && StackIsPath(graph, recStack, leftover, path)
          invariant path == outer + [node] && recStack == old(recStack) + {node}
          invariant leftover == old(leftover) && old(visited) + {node} <= visited && old(finished) <= finished
          invariant forall j :: 0 <= j < i ==> neighbors[j] in finished
          invariant calls + OutEdges(graph, old(expanded) + [node]) <= old(calls) + 1 + i + OutEdges(graph, expanded)
        {
          assert neighbors[i] in neighbors;
          EdgeIntoNodes(graph, node, neighbors[i]);
          var found := DetectCycle(neighbors[i]);
          if found.Some? {
            FoundOnward(graph, visited, recStack, leftover, finished, expanded, outer, node, i, path, found.value);
            return found;
          }
        }
      }

      Pop(graph, visited, recStack, leftover, finished, expanded, outer, node);
      assert recStack - {node} == old(recStack);
      assert path[..|path| - 1] == outer;
      path := path[..|path| - 1];
      recStack := recStack - {node};
      finished := finished + [node];
      return None;
    }

    /** Each neighbour list is walked at most once. */
    lemma OutEdgesBound(rels: seq<RelationshipMetadata>)
      requires Idle() && graph == ForeignKeyGraph(rels)
      ensures OutEdges(graph, expanded) <= ForeignKeys(rels)
    {
      OutEdgesAreTargets(rels, expanded);
      TotalTargetsBound(rels, expanded);
    }

    /** One search, with a path of its own. */
    method SearchFrom(start: string) returns (cycle: Option<seq<string>>)
      requires Idle() && start in Nodes(graph)
      modifies this
      ensures Idle()
      ensures cycle.Some? <==> ReachesCycle(graph, start)
      ensures cycle.None? ==> recStack == old(recStack)
      ensures cycle.Some? ==> Found(graph, old(recStack), [], start, path, recStack, cycle.value)
      ensures calls + OutEdges(graph, old(expanded)) <= old(calls) + 1 + OutEdges(graph, expanded)
    {
      hide SettledSets, StackIsPath, ValidReport, ReachesCycle, OutEdges, Nodes;
      path, leftover := [], recStack;
      Abandon(graph, recStack);
      cycle := DetectCycle(start);
      if cycle.None? {
        NoCycleFromFinished(graph, visited, recStack, finished, expanded, start);
      } else {
        FoundReaches(graph, leftover, [], start, path, recStack, cycle.value);
      }
    }
  }

  /** Meeting a node of the current path closes a simple cycle. */
  lemma ClosesOwnPath(g: Graph<string>, path: seq<string>, node: string, leftover: set<string>)
    requires Distinct(path) && Walk(g, path) && Edge(g, path[|path| - 1], node)
    requires leftover !! Elems(path) && node in path
    ensures var report := (path + [node])[Position(path + [node], node)..];
            SimpleCycle(g, report) && report[0] == node && Elems(report) <= Elems(path)
  {
    var walk := path + [node];
    var k := Position(walk, node);
    assert k < |path|;
    var report := walk[k..];
    assert report[..|report| - 1] == path[k..];
    forall i, j | 0 <= i && j == i + 1 && j < |report| ensures Edge(g, report[i], report[j]) {
      assert report[i] == path[k + i];
      if j < |report| - 1 { assert report[j] == path[k + j]; }
    }
  }

  /** Meeting an abandoned node reports that node alone. */
  lemma MeetsLeftover(path: seq<string>, node: string)
    requires node !in path
    ensures (path + [node])[Position(path + [node], node)..] == [node]
  {
  }

  /** Every node of a path that leads to a cycle reaches it. */
  lemma PathReaches(g: Graph<string>, leftover: set<string>, path: seq<string>, node: string)
    requires StackIsPath(g, leftover + Elems(path), leftover, path) && ReachesCycle(g, node)
    requires path == [] || Edge(g, path[|path| - 1], node)
    ensures AllReachCycles(g, leftover + Elems(path))
  {
    if path != [] {
      EdgeToCycle(g, path[|path| - 1], node);
      WalkToCycle(g, path);
    }
  }

  /** A search ends at the first node that is on the stack. */
  lemma FoundHere(g: Graph<string>, recStack: set<string>, leftover: set<string>, path: seq<string>, node: string)
    requires StackIsPath(g, recStack, leftover, path) && node in recStack
    requires path == [] || Edge(g, path[|path| - 1], node)
    ensures Found(g, leftover, path, node, path + [node], recStack, (path + [node])[Position(path + [node], node)..])
  {
    ElemsStep(path, node);
    if node in path {
      ClosesOwnPath(g, path, node, leftover);
      CycleReachesItself(g, (path + [node])[Position(path + [node], node)..]);
    }
  }

  /** It gets there through the first neighbour that reaches a cycle: those before it are finished. */
  lemma FoundOnward(g: Graph<string>, visited: set<string>, recStack: set<string>, leftover: set<string>,
                    finished: seq<string>, expanded: seq<string>, path: seq<string>, node: string, i: nat,
                    path': seq<string>, report: seq<string>)
    requires SettledSets(g, visited, recStack, finished, expanded)
    requires node in g && i < |g[node]| && forall j :: 0 <= j < i ==> g[node][j] in finished
    requires node !in leftover && node !in path
    requires Found(g, leftover, path + [node], g[node][i], path', recStack, report)
    ensures Found(g, leftover, path, node, path', recStack, report)
  {
    hide ReachesCycle;
    forall j | 0 <= j < i ensures !ReachesCycle(g, g[node][j]) {
      NoCycleFromFinished(g, visited, recStack, finished, expanded, g[node][j]);
    }
    FirstReachingIs(g, g[node], i);
    EdgeToCycle(g, node, g[node][i]);
  }

  /** All that such a search leaves on the stack reaches a cycle, and its report is a valid one. */
  lemma {:induction false} TrailIsValid(g: Graph<string>, leftover: set<string>, path: seq<string>, node: string)
    requires StackIsPath(g, leftover + Elems(path), leftover, path) && ReachesCycle(g, node)
    requires path == [] || Edge(g, path[|path| - 1], node)
    ensures var trail := Trail(g, leftover, path, node);
            && AllReachCycles(g, leftover + Elems(trail))
            && ValidReport(g, Report(trail), leftover) && Elems(Report(trail)) <= Elems(trail)
    decreases Nodes(g) - Elems(path)
  {
    hide *;
    TrailUnfolds(g, leftover, path, node);
    if node in leftover || node in path {
      TrailEnds(g, leftover, path, node);
    } else {
      ExtendPath(g, leftover, path, node);
      TrailIsValid(g, leftover, path + [node], Onward(g, node));
    }
  }

  lemma TrailUnfolds(g: Graph<string>, leftover: set<string>, path: seq<string>, node: string)
    requires ReachesCycle(g, node)
    ensures Trail(g, leftover, path, node) ==
            if node in leftover || node in path then path + [node] else Trail(g, leftover, path + [node], Onward(g, node))
  {
  }

  lemma TrailEnds(g: Graph<string>, leftover: set<string>, path: seq<string>, node: string)
    requires StackIsPath(g, leftover + Elems(path), leftover, path) && ReachesCycle(g, node)
    requires path == [] || Edge(g, path[|path| - 1], node)
    requires node in leftover || node in path
    ensures var trail := path + [node];
            && AllReachCycles(g, leftover + Elems(trail))
            && ValidReport(g, Report(trail), leftover) && Elems(Report(trail)) <= Elems(trail)
  {
    hide ReachesCycle, Walk;
    ElemsStep(path, node);
    PathReaches(g, leftover, path, node);
    if node in path { ClosesOwnPath(g, path, node, leftover); } else { MeetsLeftover(path, node); }
  }

  lemma ExtendPath(g: Graph<string>, leftover: set<string>, path: seq<string>, node: string)
    requires StackIsPath(g, leftover + Elems(path), leftover, path) && ReachesCycle(g, node)
    requires path == [] || Edge(g, path[|path| - 1], node)
    requires node !in leftover && node !in path
    ensures StackIsPath(g, leftover + Elems(path + [node]), leftover, path + [node])
    ensures Nodes(g) - Elems(path + [node]) < Nodes(g) - Elems(path)
  {
    hide ReachesCycle;
    ReachesCycleIsKey(g, node);
    KeyIsNode(g, node);
    DistinctStep(path, node);
    ElemsStep(path, node);
    if path != [] { WalkStep(g, path, node); }
  }

  lemma FoundReaches(g: Graph<string>, leftover: set<string>, path: seq<string>, node: string,
                     path': seq<string>, recStack: set<string>, report: seq<string>)
    requires path == [] && AllReachCycles(g, leftover) && Found(g, leftover, path, node, path', recStack, report)
    ensures AllReachCycles(g, recStack)
  {
    hide ReachesCycle, Trail, Report;
    Abandon(g, leftover);
    assert leftover + Elems(path) == leftover;
    TrailIsValid(g, leftover, path, node);
  }

  /** A visited node that is off the stack is finished. */
  lemma OffStack(g: Graph<string>, visited: set<string>, recStack: set<string>, finished: seq<string>,
                 expanded: seq<string>, node: string)
    requires SettledSets(g, visited, recStack, finished, expanded)
    requires node in visited && node !in recStack
    ensures node in finished
  {
  }

  /** The keys of the graph from which a cycle is reachable. */
  ghost function CyclicKeys(g: Graph<string>): set<string> {
    set k | k in g && ReachesCycle(g, k)
  }

  lemma CyclicIffSomeKey(g: Graph<string>)
    ensures Cyclic(g) <==> CyclicKeys(g) != {}
  {
    if Cyclic(g) {
      var c :| ClosedWalk(g, c);
      CycleReachesItself(g, c);
      ReachesCycleIsKey(g, c[0]);
      assert c[0] in CyclicKeys(g);
    }
    if CyclicKeys(g) != {} {
      var k :| k in CyclicKeys(g);
    }
  }

  /**
   What the searches from the starts in `done` report, in order: one report for each start that reaches
   a cycle, the first a simple cycle, the others simple cycles or single nodes that reach one, and no
   node in two cycles.
   */
  ghost predicate ValidReports(g: Graph<string>, done: set<string>, reports: seq<seq<string>>) {
    && |reports| == |set k | k in done && ReachesCycle(g, k)|
    && (reports != [] ==> SimpleCycle(g, reports[0]))
    && (forall i :: 0 <= i < |reports| ==>
          SimpleCycle(g, reports[i]) || (|reports[i]| == 1 && ReachesCycle(g, reports[i][0])))
    && (forall i, j :: 0 <= i < j < |reports| && |reports[i]| > 1 && |reports[j]| > 1 ==>
          Elems(reports[i]) !! Elems(reports[j]))
  }

  /** The abandoned stack holds every cycle reported so far. */
  ghost predicate Recorded(reports: seq<seq<string>>, leftover: set<string>) {
    && (leftover == {} <==> reports == [])
    && (forall i :: 0 <= i < |reports| && |reports[i]| > 1 ==> Elems(reports[i]) <= leftover)
  }

  lemma AddReport(g: Graph<string>, done: set<string>, leftover: set<string>, reports: seq<seq<string>>,
                  start: string, report: seq<string>, stack: set<string>)
    requires ValidReports(g, done, reports) && Recorded(reports, leftover) && start !in done
    requires ReachesCycle(g, start) && ValidReport(g, report, leftover)
    requires leftover <= stack && (|report| > 1 ==> Elems(report) <= stack)
    ensures ValidReports(g, done + {start}, reports + [report]) && Recorded(reports + [report], stack)
  {
    assert (set k | k in done + {start} && ReachesCycle(g, k)) == (set k | k in done && ReachesCycle(g, k)) + {start};
    hide ReachesCycle, SimpleCycle, ClosedWalk, Walk;
    if |report| == 1 {
      assert report[0] in leftover;
    } else {
      SimpleCycleIsLong(g, report);
    }
  }

  lemma SimpleCycleIsLong(g: Graph<string>, c: seq<string>)
    requires SimpleCycle(g, c)
    ensures |c| > 1 && c[0] in Elems(c)
  {
  }

  lemma SkipReport(g: Graph<string>, done: set<string>, reports: seq<seq<string>>, start: string)
    requires ValidReports(g, done, reports) && !ReachesCycle(g, start)
    ensures ValidReports(g, done + {start}, reports)
  {
    assert (set k | k in done + {start} && ReachesCycle(g, k)) == (set k | k in done && ReachesCycle(g, k));
  }

  /** A new search may start with an empty path once the old stack is all leftovers. */
  lemma Abandon(g: Graph<string>, recStack: set<string>)
    requires AllReachCycles(g, recStack)
    ensures StackIsPath(g, recStack, recStack, [])
  {
  }

  lemma NoCycleFromFinished(g: Graph<string>, visited: set<string>, recStack: set<string>,
                            finished: seq<string>, expanded: seq<string>, node: string)
    requires SettledSets(g, visited, recStack, finished, expanded) && node in finished
    ensures !ReachesCycle(g, node)
  {
    TopologicalReachesNoCycle(g, finished, node);
  }

  /** All foreign keys that leave the listed nodes. */
  function TotalTargets(rels: seq<RelationshipMetadata>, nodes: seq<string>): nat {
    if nodes == [] then 0
    else TotalTargets(rels, nodes[..|nodes| - 1]) + |Targets(rels, nodes[|nodes| - 1])|
  }

  lemma {:induction false} OutEdgesAreTargets(rels: seq<RelationshipMetadata>, nodes: seq<string>)
    ensures OutEdges(ForeignKeyGraph(rels), nodes) == TotalTargets(rels, nodes)
  {
    if nodes != [] {
      OutEdgesAreTargets(rels, nodes[..|nodes| - 1]);
      GraphLookup(rels, nodes[|nodes| - 1]);
    }
  }

  lemma {:induction false} TotalTargetsStep(rels: seq<RelationshipMetadata>, r: RelationshipMetadata, nodes: seq<string>)
    requires Distinct(nodes)
    ensures TotalTargets(rels + [r], nodes) ==
            TotalTargets(rels, nodes) + if r.relationshipType == ForeignKey && r.fromModel in nodes then 1 else 0
  {
    if nodes != [] {
      var front, n := nodes[..|nodes| - 1], nodes[|nodes| - 1];
      assert nodes == front + [n];
      DistinctStep(front, n);
      TotalTargetsStep(rels, r, front);
      TargetsStep(rels, r, n);
    }
  }

  /** Distinct nodes have no more outgoing edges than there are foreign keys. */
  lemma {:induction false} TotalTargetsBound(rels: seq<RelationshipMetadata>, nodes: seq<string>)
    requires Distinct(nodes)
    ensures TotalTargets(rels, nodes) <= ForeignKeys(rels)
  {
    if rels == [] {
      NoTargets(nodes);
    } else {
      var front, r := rels[..|rels| - 1], rels[|rels| - 1];
      assert rels == front + [r];
      TotalTargetsStep(front, r, nodes);
      TotalTargetsBound(front, nodes);
      FilterStep((r: RelationshipMetadata) => r.relationshipType == ForeignKey, front, r);
    }
  }

  lemma {:induction false} NoTargets(nodes: seq<string>)
    ensures TotalTargets([], nodes) == 0
  {
    if nodes != [] { NoTargets(nodes[..|nodes| - 1]); }
  }

  // ----- The reports, as a function of the order of the starts -----

  /** The stack that the searches from the starts in `order` leave behind. */
  ghost function Left(g: Graph<string>, order: seq<string>): set<string> {
    if order == [] then {}
    else
      var left, start := Left(g, order[..|order| - 1]), order[|order| - 1];
      if ReachesCycle(g, start) then left + Elems(Trail(g, left, [], start)) else left
  }

  ghost function Reports(g: Graph<string>, order: seq<string>): seq<seq<string>> {
    if order == [] then []
    else
      var front, start := order[..|order| - 1], order[|order| - 1];
      if ReachesCycle(g, start) then Reports(g, front) + [Report(Trail(g, Left(g, front), [], start))] else Reports(g, front)
  }

  lemma OrderStep(g: Graph<string>, order: seq<string>, start: string)
    ensures if ReachesCycle(g, start)
            then && Left(g, order + [start]) == Left(g, order) + Elems(Trail(g, Left(g, order), [], start))
                 && Reports(g, order + [start]) == Reports(g, order) + [Report(Trail(g, Left(g, order), [], start))]
            else Left(g, order + [start]) == Left(g, order) && Reports(g, order + [start]) == Reports(g, order)
  {
  }

  lemma NothingReported(g: Graph<string>)
    ensures Left(g, []) == {} && Reports(g, []) == [] && AllReachCycles(g, {}) && ValidReports(g, {}, []) && Recorded([], {})
  {
  }

  /**
   Whatever the order: one report for each start that reaches a cycle, the first a simple cycle, the
   others simple cycles or single nodes that reach one, and no node in two cycles.
   */
  lemma {:induction false} ReportsAreValid(g: Graph<string>, order: seq<string>)
    requires Distinct(order)
    ensures ValidReports(g, Elems(order), Reports(g, order))
    ensures Recorded(Reports(g, order), Left(g, order)) && AllReachCycles(g, Left(g, order))
  {
    hide *;
    NothingReported(g);
    if order == [] {
      NoElems();
    } else {
      var front, start := order[..|order| - 1], order[|order| - 1];
      assert order == front + [start];
      DistinctStep(front, start);
      ElemsStep(front, start);
      InElems(front, start);
      OrderStep(g, front, start);
      ReportsAreValid(g, front);
      if ReachesCycle(g, start) {
        OneMoreReport(g, Elems(front), Left(g, front), Reports(g, front), start);
      } else {
        SkipReport(g, Elems(front), Reports(g, front), start);
      }
    }
  }

  lemma NoElems()
    ensures Elems<string>([]) == {} && Distinct<string>([])
  {
  }

  lemma InElems(s: seq<string>, x: string)
    ensures x in Elems(s) <==> x in s
  {
  }

  lemma OneMoreReport(g: Graph<string>, done: set<string>, left: set<string>, reports: seq<seq<string>>, start: string)
    requires ValidReports(g, done, reports) && Recorded(reports, left) && AllReachCycles(g, left)
    requires ReachesCycle(g, start) && start !in done
    ensures var trail := Trail(g, left, [], start);
            && ValidReports(g, done + {start}, reports + [Report(trail)])
            && Recorded(reports + [Report(trail)], left + Elems(trail))
            && AllReachCycles(g, left + Elems(trail))
  {
    hide ValidReports, Recorded, ReachesCycle, Trail, Report;
    Abandon(g, left);
    assert left + Elems<string>([]) == left;
    TrailIsValid(g, left, [], start);
    var trail := Trail(g, left, [], start);
    AddReport(g, done, left, reports, start, Report(trail), left + Elems(trail));
  }

  /** The start nodes are taken in any order, as a hash map yields its keys; `order` is the one taken. */
  method CheckCircularRelationships(rels: seq<RelationshipMetadata>)
    returns (reports: seq<seq<string>>, ghost order: seq<string>, ghost calls: nat)
    ensures Distinct(order) && Elems(order) == ForeignKeyGraph(rels).Keys
    ensures reports == Reports(ForeignKeyGraph(rels), order)
    ensures reports != [] <==> Cyclic(ForeignKeyGraph(rels))
    ensures ValidReports(ForeignKeyGraph(rels), ForeignKeyGraph(rels).Keys, reports)
    ensures calls <= |ForeignKeyGraph(rels)| + ForeignKeys(rels)
  {
    hide *;
    var graph := BuildGraph(rels);
    var search := new CycleSearch(graph);
    reports, order := [], [];
    var starts := graph.Keys;
    NothingReported(graph);
    NoElems();
    while starts != {}
      invariant starts <= graph.Keys && Elems(order) == graph.Keys - starts && Distinct(order)
      invariant fresh(search) && search.graph == graph && search.Idle()
      invariant reports == Reports(graph, order) && search.recStack == Left(graph, order)
      invariant search.calls <= |order| + OutEdges(graph, search.expanded)
      decreases starts
    {
      var start :| start in starts;
      KeyIsNode(graph, start);
      InElems(order, start);
      DistinctStep(order, start);
      ElemsStep(order, start);
      OrderStep(graph, order, start);
      ghost var stack := search.recStack;
      var cycle := search.SearchFrom(start);
      if cycle.Some? {
        FoundIs(graph, stack, start, search.path, search.recStack, cycle.value);
        reports := reports + [cycle.value];
      }
      starts, order := starts - {start}, order + [start];
    }
    calls := search.calls;
    assert graph.Keys - starts == graph.Keys;
    ReportsAreValid(graph, order);
    OneReportPerCyclicKey(graph, reports);
    DistinctCount(order);
    search.OutEdgesBound(rels);
  }

  lemma FoundIs(g: Graph<string>, left: set<string>, start: string, path: seq<string>, recStack: set<string>, report: seq<string>)
    requires Found(g, left, [], start, path, recStack, report)
    ensures ReachesCycle(g, start)
    ensures report == Report(Trail(g, left, [], start)) && recStack == left + Elems(Trail(g, left, [], start))
  {
  }

  lemma {:induction false} DistinctCount(s: seq<string>)
    requires Distinct(s)
    ensures |Elems(s)| == |s|
  {
    if s != [] {
      var front, x := s[..|s| - 1], s[|s| - 1];
      assert s == front + [x];
      DistinctStep(front, x);
      ElemsStep(front, x);
      DistinctCount(front);
    }
  }

  // ----- When every report is a cycle -----

  /** Each start's report is among the reports. */
  lemma {:induction false} ReportOf(g: Graph<string>, order: seq<string>, i: nat)
    requires i < |order| && ReachesCycle(g, order[i])
    ensures Report(Trail(g, Left(g, order[..i]), [], order[i])) in Reports(g, order)
    ensures Left(g, order[..i]) + Elems(Trail(g, Left(g, order[..i]), [], order[i])) <= Left(g, order)
  {
    hide ReachesCycle, Trail, Report;
    var n := |order| - 1;
    if i < n {
      assert order[..n][..i] == order[..i];
      ReportOf(g, order[..n], i);
    }
  }

  /** A start that an earlier search abandoned is reported alone. */
  lemma AbandonedStart(g: Graph<string>, left: set<string>, start: string)
    requires ReachesCycle(g, start) && start in left
    ensures Trail(g, left, [], start) == [start] && Report([start]) == [start]
  {
  }

  /** A search that moves on to an abandoned neighbour reports that neighbour alone. */
  lemma AbandonedNeighbor(g: Graph<string>, left: set<string>, start: string)
    requires ReachesCycle(g, start) && start !in left && Onward(g, start) in left && Onward(g, start) != start
    ensures Report(Trail(g, left, [], start)) == [Onward(g, start)]
  {
  }

  /** After a search from `start`, it and the neighbour the search moved on to are on the stack, unless it was there before. */
  lemma OnTheStack(g: Graph<string>, left: set<string>, start: string)
    requires ReachesCycle(g, start)
    ensures var trail := Trail(g, left, [], start);
            start in Elems(trail) && (start in left || Onward(g, start) in Elems(trail))
  {
    hide Onward, ReachesCycle;
    var trail := Trail(g, left, [], start);
    assert [] + [start] == [start];
    assert trail[0] == start;
    if start !in left {
      assert trail == Trail(g, left, [start], Onward(g, start));
      assert [start] + [Onward(g, start)] <= trail;
      assert trail[1] == Onward(g, start);
    }
  }

  /** A single node is no cycle. */
  lemma SingleIsNoCycle(g: Graph<string>, report: seq<string>)
    requires |report| == 1
    ensures !SimpleCycle(g, report)
  {
  }

  /** Two starts of which the later is on the stack that the earlier leaves: the later is reported alone. */
  lemma LaterIsAlone(g: Graph<string>, order: seq<string>, i: nat, j: nat)
    requires i < j < |order| && ReachesCycle(g, order[i]) && ReachesCycle(g, order[j])
    requires order[j] in Left(g, order[..i]) + Elems(Trail(g, Left(g, order[..i]), [], order[i]))
    ensures [order[j]] in Reports(g, order)
  {
    hide ReachesCycle, Trail, Report, Reports, Left;
    assert order[..j][..i] == order[..i] && order[..j][i] == order[i];
    ReportOf(g, order[..j], i);
    ReportOf(g, order, j);
    AbandonedStart(g, Left(g, order[..j]), order[j]);
  }

  /** A key whose search moves on to another node costs one of the two its cycle. */
  lemma MovingOnAbandons(g: Graph<string>, order: seq<string>, k: string) returns (report: seq<string>)
    requires Elems(order) == g.Keys && ReachesCycle(g, k) && Onward(g, k) != k
    ensures report in Reports(g, order) && |report| == 1
  {
    hide ReachesCycle, Trail, Report, Reports, Left, Onward;
    var b := Onward(g, k);
    ReachesCycleIsKey(g, k);
    ReachesCycleIsKey(g, b);
    assert k in Elems(order) && b in Elems(order);
    var i :| 0 <= i < |order| && order[i] == k;
    var j :| 0 <= j < |order| && order[j] == b;
    var left := Left(g, order[..i]);
    OnTheStack(g, left, k);
    ReportOf(g, order, i);
    if k in left {
      AbandonedStart(g, left, k);
      report := [k];
    } else if i < j {
      LaterIsAlone(g, order, i, j);
      report := [b];
    } else {
      assert order[..i][..j] == order[..j] && order[..i][j] == b;
      ReportOf(g, order[..i], j);
      OnTheStack(g, Left(g, order[..j]), b);
      AbandonedNeighbor(g, left, k);
      report := [b];
    }
  }

  /** When no search moves on to another node, every search closes a loop at its own start. */
  lemma {:induction false} LoopsOnly(g: Graph<string>, order: seq<string>)
    requires Distinct(order) && forall k :: ReachesCycle(g, k) ==> Onward(g, k) == k
    ensures Left(g, order) <= Elems(order)
    ensures forall r :: r in Reports(g, order) ==> SimpleCycle(g, r)
  {
    hide ReachesCycle, Trail, Report, Onward, SimpleCycle;
    if order != [] {
      var front, start := order[..|order| - 1], order[|order| - 1];
      assert order == front + [start];
      DistinctStep(front, start);
      ElemsStep(front, start);
      LoopsOnly(g, front);
      if ReachesCycle(g, start) { OwnLoop(g, Left(g, front), start); }
    }
  }

  lemma OwnLoop(g: Graph<string>, left: set<string>, start: string)
    requires ReachesCycle(g, start) && start !in left && Onward(g, start) == start
    ensures Elems(Trail(g, left, [], start)) == {start} && SimpleCycle(g, Report(Trail(g, left, [], start)))
  {
  }

  /**
   Every reported path is a cycle exactly when each model that reaches a cycle has itself as the first
   neighbour that does; the order of the starts makes no difference to that.
   */
  lemma AllCyclesExactly(g: Graph<string>, order: seq<string>)
    requires Distinct(order) && Elems(order) == g.Keys
    ensures (forall r :: r in Reports(g, order) ==> SimpleCycle(g, r)) <==>
            forall k :: ReachesCycle(g, k) ==> Onward(g, k) == k
  {
    hide ReachesCycle, Onward, SimpleCycle, Reports;
    if forall k :: ReachesCycle(g, k) ==> Onward(g, k) == k {
      LoopsOnly(g, order);
    } else {
      var k :| ReachesCycle(g, k) && Onward(g, k) != k;
      var report := MovingOnAbandons(g, order, k);
      SingleIsNoCycle(g, report);
    }
  }

  // ----- Which cycles are reported -----

  /** A search that comes to `a` goes on to `b`. */
  ghost predicate GoesOn(g: Graph<string>, a: string, b: string) {
    ReachesCycle(g, a) && b == Onward(g, a)
  }

  ghost predicate Follows(g: Graph<string>, w: seq<string>) {
    forall i, j :: 0 <= i && j == i + 1 && j < |w| ==> GoesOn(g, w[i], w[j])
  }

  ghost predicate StepOf(c: seq<string>, a: string, b: string) {
    exists i, j :: 0 <= i && j == i + 1 && j < |c| && c[i] == a && c[j] == b
  }

  /** The same cycle, from whichever of its nodes it is written down. */
  ghost predicate SameCycle(c: seq<string>, d: seq<string>) {
    forall a, b :: StepOf(c, a, b) <==> StepOf(d, a, b)
  }

  lemma GoesOnIs(g: Graph<string>, a: string)
    requires ReachesCycle(g, a)
    ensures GoesOn(g, a, Onward(g, a))
  {
  }

  lemma FollowsStep(g: Graph<string>, w: seq<string>, b: string)
    requires Follows(g, w) && w != [] && GoesOn(g, w[|w| - 1], b)
    ensures Follows(g, w + [b])
  {
    hide GoesOn;
    var t := w + [b];
    forall i, j | 0 <= i && j == i + 1 && j < |t| ensures GoesOn(g, t[i], t[j]) {
      assert t[i] == w[i];
      assert j < |w| ==> t[j] == w[j];
    }
  }

  /** A search follows the first neighbours, past no abandoned node, to an abandoned node or one of its own. */
  lemma {:induction false} TrailFollows(g: Graph<string>, leftover: set<string>, path: seq<string>, node: string)
    requires ReachesCycle(g, node) && Follows(g, path + [node])
    ensures var trail := Trail(g, leftover, path, node);
            && Follows(g, trail)
            && (trail[|trail| - 1] in leftover || trail[|trail| - 1] in trail[..|trail| - 1])
    decreases Nodes(g) - Elems(path)
  {
    hide *;
    TrailUnfolds(g, leftover, path, node);
    if node in leftover || node in path {
      assert (path + [node])[..|path|] == path;
    } else {
      GoesOnIs(g, node);
      FollowsStep(g, path + [node], Onward(g, node));
      FewerLeft(g, path, node);
      TrailFollows(g, leftover, path + [node], Onward(g, node));
    }
  }

  lemma FewerLeft(g: Graph<string>, path: seq<string>, node: string)
    requires ReachesCycle(g, node) && node !in path
    ensures Nodes(g) - Elems(path + [node]) < Nodes(g) - Elems(path)
  {
    hide ReachesCycle;
    ReachesCycleIsKey(g, node);
    KeyIsNode(g, node);
    ElemsStep(path, node);
    assert node in Nodes(g) - Elems(path);
  }

  ghost predicate ClosedUnder(g: Graph<string>, nodes: set<string>) {
    forall x :: x in nodes && ReachesCycle(g, x) ==> Onward(g, x) in nodes
  }

  /** A path that follows the first neighbours stays in a set that is closed under them. */
  lemma {:induction false} StaysIn(g: Graph<string>, nodes: set<string>, w: seq<string>, m: nat, i: nat)
    requires ClosedUnder(g, nodes) && Follows(g, w) && m <= i < |w| && w[m] in nodes
    ensures w[i] in nodes
    decreases i
  {
    hide ReachesCycle, Onward;
    if m < i { StaysIn(g, nodes, w, m, i - 1); }
  }

  lemma CycleIsClosed(g: Graph<string>, c: seq<string>)
    requires Follows(g, c) && |c| >= 2 && c[0] == c[|c| - 1]
    ensures ClosedUnder(g, Elems(c))
  {
    hide ReachesCycle, Onward;
    forall x | x in Elems(c) && ReachesCycle(g, x) ensures Onward(g, x) in Elems(c) {
      var i :| 0 <= i < |c| && c[i] == x;
      var k, j := if i == |c| - 1 then 0 else i, if i == |c| - 1 then 1 else i + 1;
      assert c[k] == x && c[j] == Onward(g, x);
    }
  }

  /** Two such cycles with a node in common have all nodes in common. */
  lemma Covers(g: Graph<string>, c: seq<string>, d: seq<string>, x: string)
    requires Follows(g, c) && |c| >= 2 && c[0] == c[|c| - 1]
    requires Follows(g, d) && |d| >= 2 && d[0] == d[|d| - 1]
    requires x in c && x in d
    ensures Elems(d) <= Elems(c)
  {
    hide ReachesCycle, Onward, Follows;
    CycleIsClosed(g, c);
    var m :| 0 <= m < |d| && d[m] == x;
    StaysIn(g, Elems(c), d, m, |d| - 1);
    forall i | 0 <= i < |d| ensures d[i] in Elems(c) { StaysIn(g, Elems(c), d, 0, i); }
  }

  lemma SuffixFollows(g: Graph<string>, w: seq<string>, p: nat)
    requires Follows(g, w) && p <= |w|
    ensures Follows(g, w[p..])
  {
    hide GoesOn;
    var t := w[p..];
    forall i, j | 0 <= i && j == i + 1 && j < |t| ensures GoesOn(g, t[i], t[j]) {
      assert t[i] == w[p + i] && t[j] == w[p + j];
    }
  }

  /** The first search to come to such a cycle goes all the way round it. */
  lemma TrailRoundsCycle(g: Graph<string>, left: set<string>, start: string, c: seq<string>)
    requires ReachesCycle(g, start) && Follows(g, c) && |c| >= 2 && c[0] == c[|c| - 1]
    requires left !! Elems(c) && !(Elems(Trail(g, left, [], start)) !! Elems(c))
    ensures var r := Report(Trail(g, left, [], start)); |r| > 1 && Elems(r) == Elems(c)
  {
    hide ReachesCycle, Onward, Trail, Follows;
    var trail := Trail(g, left, [], start);
    SingleFollows(g, start);
    TrailFollows(g, left, [], start);
    CycleIsClosed(g, c);
    var x :| x in Elems(trail) && x in Elems(c);
    var m :| 0 <= m < |trail| && trail[m] == x;
    var n := |trail| - 1;
    StaysIn(g, Elems(c), trail, m, n);
    var p := Position(trail, trail[n]);
    var i :| 0 <= i < n && trail[i] == trail[n];
    assert trail[..n][i] == trail[n];
    assert p <= i;
    var r := Report(trail);
    assert r == trail[p..];
    SuffixFollows(g, trail, p);
    Covers(g, r, c, trail[n]);
    Covers(g, c, r, trail[n]);
  }

  lemma SingleFollows(g: Graph<string>, start: string)
    ensures Follows(g, [] + [start])
  {
  }

  /** Until a cycle that follows the first neighbours is reported, no search has come near it. */
  lemma {:induction false} ReportedOrUntouched(g: Graph<string>, order: seq<string>, c: seq<string>)
    requires Follows(g, c) && |c| >= 2 && c[0] == c[|c| - 1]
    ensures (exists r :: r in Reports(g, order) && |r| > 1 && Elems(r) == Elems(c)) || Left(g, order) !! Elems(c)
  {
    hide *;
    if order == [] {
      NothingReported(g);
    } else {
      var front, start := order[..|order| - 1], order[|order| - 1];
      assert order == front + [start];
      OrderStep(g, front, start);
      ReportedOrUntouched(g, front, c);
      if r :| r in Reports(g, front) && |r| > 1 && Elems(r) == Elems(c) {
        assert r in Reports(g, order);
      } else if ReachesCycle(g, start) && !(Elems(Trail(g, Left(g, front), [], start)) !! Elems(c)) {
        TrailRoundsCycle(g, Left(g, front), start, c);
        assert Report(Trail(g, Left(g, front), [], start)) in Reports(g, order);
      }
    }
  }

  /** Every reported cycle follows the first neighbours. */
  lemma {:induction false} ReportsFollow(g: Graph<string>, order: seq<string>, r: seq<string>)
    requires r in Reports(g, order)
    ensures Follows(g, r)
  {
    hide *;
    if order == [] {
      NothingReported(g);
    } else {
      var front, start := order[..|order| - 1], order[|order| - 1];
      assert order == front + [start];
      OrderStep(g, front, start);
      if r in Reports(g, front) {
        ReportsFollow(g, front, r);
      } else {
        SingleFollows(g, start);
        TrailFollows(g, Left(g, front), [], start);
        ReportIsSuffix(g, Trail(g, Left(g, front), [], start));
      }
    }
  }

  lemma ReportIsSuffix(g: Graph<string>, trail: seq<string>)
    requires trail != [] && Follows(g, trail)
    ensures Follows(g, Report(trail))
  {
    hide Follows;
    SuffixFollows(g, trail, Position(trail, trail[|trail| - 1]));
  }

  /** On such a cycle the steps are the moves to first neighbours. */
  lemma StepsFollow(g: Graph<string>, c: seq<string>, a: string, b: string)
    requires Follows(g, c) && |c| >= 2 && c[0] == c[|c| - 1]
    ensures StepOf(c, a, b) <==> a in c && GoesOn(g, a, b)
  {
    hide ReachesCycle, Onward;
    if a in c && GoesOn(g, a, b) {
      var i :| 0 <= i < |c| && c[i] == a;
      var k, j := if i == |c| - 1 then 0 else i, if i == |c| - 1 then 1 else i + 1;
      assert c[k] == a && c[j] == b;
    }
  }

  /**
   A cycle is reported, in any order of the starts, exactly when on it each node is followed by its first
   neighbour that reaches a cycle.
   */
  lemma CycleReportedExactly(g: Graph<string>, order: seq<string>, c: seq<string>)
    requires Distinct(order) && Elems(order) == g.Keys && SimpleCycle(g, c)
    ensures (exists r :: r in Reports(g, order) && SameCycle(r, c)) <==> Follows(g, c)
  {
    hide ReachesCycle, Onward, Reports, Left, Follows, SameCycle, StepOf, Trail;
    if Follows(g, c) {
      CycleReachesItself(g, c);
      ReachesCycleIsKey(g, c[0]);
      assert c[0] in Elems(order);
      var i :| 0 <= i < |order| && order[i] == c[0];
      ReportOf(g, order, i);
      OnTheStack(g, Left(g, order[..i]), order[i]);
      assert c[0] in Left(g, order) && c[0] in Elems(c);
      ReportedOrUntouched(g, order, c);
      var r :| r in Reports(g, order) && |r| > 1 && Elems(r) == Elems(c);
      ReportsFollow(g, order, r);
      ReportIsClosed(g, order, r);
      SameElemsSameCycle(g, r, c);
    }
    if r :| r in Reports(g, order) && SameCycle(r, c) {
      ReportsFollow(g, order, r);
      SameFollows(g, r, c);
    }
  }

  lemma ReportIsClosed(g: Graph<string>, order: seq<string>, r: seq<string>)
    requires Distinct(order) && r in Reports(g, order) && |r| > 1
    ensures r[0] == r[|r| - 1]
  {
    ReportsAreValid(g, order);
    hide Reports, Left, ReachesCycle;
    assert forall r :: r in Reports(g, order) ==> SimpleCycle(g, r) || |r| == 1;
  }

  lemma SameElemsSameCycle(g: Graph<string>, c: seq<string>, d: seq<string>)
    requires Follows(g, c) && |c| >= 2 && c[0] == c[|c| - 1]
    requires Follows(g, d) && |d| >= 2 && d[0] == d[|d| - 1]
    requires Elems(c) == Elems(d)
    ensures SameCycle(c, d)
  {
    hide Follows, ReachesCycle, Onward, StepOf;
    forall a, b ensures StepOf(c, a, b) <==> StepOf(d, a, b) {
      StepsFollow(g, c, a, b);
      StepsFollow(g, d, a, b);
      assert a in c <==> a in Elems(c);
      assert a in d <==> a in Elems(d);
    }
  }

  lemma SameFollows(g: Graph<string>, c: seq<string>, d: seq<string>)
    requires Follows(g, c) && SameCycle(c, d)
    ensures Follows(g, d)
  {
    hide GoesOn;
    forall i, j | 0 <= i && j == i + 1 && j < |d| ensures GoesOn(g, d[i], d[j]) {
      assert StepOf(d, d[i], d[j]);
      assert StepOf(c, d[i], d[j]);
    }
  }

  /** A plain foreign key. */
  function KeyTo(from: string, to: string): RelationshipMetadata {
    RelationshipMetadata(from, to, ForeignKey, "key", None, None, None)
  }

  const TWO_MODELS := [KeyTo("A", "B"), KeyTo("B", "A")]
  const FOUR_MODELS := TWO_MODELS + [KeyTo("C", "A"), KeyTo("C", "D"), KeyTo("D", "C")]

  lemma AddKey(rels: seq<RelationshipMetadata>, from: string, to: string, targets: seq<string>)
    requires var g := ForeignKeyGraph(rels); targets == (if from in g then g[from] else []) + [to]
    ensures ForeignKeyGraph(rels + [KeyTo(from, to)]) == ForeignKeyGraph(rels)[from := targets]
  {
    hide ForeignKeyGraph;
    AddEdge(rels, KeyTo(from, to));
  }

  lemma GraphOfTwo()
    ensures ForeignKeyGraph(TWO_MODELS) == map["A" := ["B"], "B" := ["A"]]
  {
    hide ForeignKeyGraph;
    NoEdges();
    AddKey([], "A", "B", ["B"]);
    AddKey([] + [KeyTo("A", "B")], "B", "A", ["A"]);
    assert [] + [KeyTo("A", "B")] + [KeyTo("B", "A")] == TWO_MODELS;
  }

  lemma GraphOfFour()
    ensures ForeignKeyGraph(FOUR_MODELS) == map["A" := ["B"], "B" := ["A"], "C" := ["A", "D"], "D" := ["C"]]
  {
    hide ForeignKeyGraph;
    GraphOfTwo();
    AddKey(TWO_MODELS, "C", "A", ["A"]);
    AddKey(TWO_MODELS + [KeyTo("C", "A")], "C", "D", ["A", "D"]);
    AddKey(TWO_MODELS + [KeyTo("C", "A")] + [KeyTo("C", "D")], "D", "C", ["C"]);
    assert TWO_MODELS + [KeyTo("C", "A")] + [KeyTo("C", "D")] + [KeyTo("D", "C")] == FOUR_MODELS;
  }

  /** A cycle that is never reported: C -> D -> C, where C refers first to A, and A and B refer to each other. */
  lemma MissedCycle(order: seq<string>)
    requires Distinct(order) && Elems(order) == ForeignKeyGraph(FOUR_MODELS).Keys
    ensures var g := ForeignKeyGraph(FOUR_MODELS);
            SimpleCycle(g, ["C", "D", "C"]) && !exists r :: r in Reports(g, order) && SameCycle(r, ["C", "D", "C"])
  {
    hide ForeignKeyGraph;
    GraphOfFour();
    var g := map["A" := ["B"], "B" := ["A"], "C" := ["A", "D"], "D" := ["C"]];
    var c := ["C", "D", "C"];
    assert Edge(g, "A", "B") && Edge(g, "B", "A") && Edge(g, "C", "D") && Edge(g, "D", "C") && Edge(g, "C", "A");
    assert ClosedWalk(g, ["A", "B", "A"]);
    CycleReachesItself(g, ["A", "B", "A"]);
    GoesOnToFirst(g, "C", "A");
    assert SimpleCycle(g, c);
    assert c[0] == "C" && c[1] == "D";
    CycleReportedExactly(g, order, c);
  }

  lemma GoesOnToFirst(g: Graph<string>, a: string, b: string)
    requires a in g && g[a] != [] && g[a][0] == b && ReachesCycle(g, b)
    ensures ReachesCycle(g, a) && Onward(g, a) == b
  {
    hide ReachesCycle;
    EdgeToCycle(g, a, b);
    FirstReachingIs(g, g[a], 0);
  }

  lemma OneReportPerCyclicKey(g: Graph<string>, reports: seq<seq<string>>)
    requires ValidReports(g, g.Keys, reports)
    ensures reports != [] <==> Cyclic(g)
  {
    assert |reports| == |CyclicKeys(g)|;
    CyclicIffSomeKey(g);
  }

  /**
   A later report need not be a cycle: in the graph A -> B -> A the second report, from whichever
   start comes second, is a single node.
   */
  lemma SecondReportIsNoCycle(reports: seq<seq<string>>)
    requires var g := ForeignKeyGraph(TWO_MODELS); ValidReports(g, g.Keys, reports)
    ensures |reports| == 2 && SimpleCycle(ForeignKeyGraph(TWO_MODELS), reports[0]) && |reports[1]| == 1
  {
    hide ForeignKeyGraph;
    GraphOfTwo();
    var g := map["A" := ["B"], "B" := ["A"]];
    assert ClosedWalk(g, ["A", "B", "A"]) && ClosedWalk(g, ["B", "A", "B"]);
    CycleReachesItself(g, ["A", "B", "A"]);
    CycleReachesItself(g, ["B", "A", "B"]);
    assert (set k | k in g.Keys && ReachesCycle(g, k)) == {"A", "B"};
    CycleThroughA(g, reports[0]);
    if |reports[1]| > 1 {
      CycleThroughA(g, reports[1]);
    }
  }

  lemma CycleThroughA(g: Graph<string>, c: seq<string>)
    requires g == map["A" := ["B"], "B" := ["A"]] && SimpleCycle(g, c)
    ensures |c| > 1 && "A" in Elems(c)
  {
    assert Edge(g, c[0], c[1]);
  }
}
