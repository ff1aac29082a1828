/** Listing the descendants of a process from a table of process and parent identifiers. */
module ProcessTree {
  import opened Wrappers
  import opened Sequences
  import opened Walks

  /** One line of the process table; a field that is no finite number is `None`. */
  datatype Row = Row(pid: Option<int>, ppid: Option<int>)
  {
    predicate Usable() {
      pid.Some? && ppid.Some?
    }
  }

  function ChildRows(rows: seq<Row>, parent: int): seq<Row> {
    Filter((r: Row) => r.Usable() && r.ppid.value == parent, rows)
  }

  function PidOf(r: Row): int {
    if r.pid.Some? then r.pid.value else 0
  }

  function PpidOf(r: Row): int {
    if r.ppid.Some? then r.ppid.value else 0
  }

  /** The children of `parent`, in table order. */
  function ChildPids(rows: seq<Row>, parent: int): seq<int> {
    Map(PidOf, ChildRows(rows, parent))
  }

  lemma ChildPidsStep(rows: seq<Row>, r: Row, parent: int)
    ensures ChildPids(rows + [r], parent) ==
            ChildPids(rows, parent) + (if r.Usable() && r.ppid.value == parent then [r.pid.value] else [])
  {
  }

  /** `g` maps each parent to its children, in table order. */
  ghost predicate IsChildMap(rows: seq<Row>, g: Graph<int>) {
    && (forall p :: p in g <==> ChildPids(rows, p) != [])
    && (forall p :: p in g ==> g[p] == ChildPids(rows, p))
  }

  method BuildChildMap(rows: seq<Row>) returns (g: Graph<int>)
    ensures IsChildMap(rows, g)
  {
    g := map[];
    for i := 0 to |rows|
      invariant IsChildMap(rows[..i], g)
    {
      var r := rows[i];
      AddRow(rows[..i], r, g);
      assert rows[..i + 1] == rows[..i] + [r];
      if r.pid.Some? && r.ppid.Some? {
        g := g[r.ppid.value := (if r.ppid.value in g then g[r.ppid.value] else []) + [r.pid.value]];
      }
    }
    assert rows[..|rows|] == rows;
  }

  lemma AddRow(rows: seq<Row>, r: Row, g: Graph<int>)
    requires IsChildMap(rows, g)
    ensures IsChildMap(rows + [r],
              if r.Usable() then g[r.ppid.value := (if r.ppid.value in g then g[r.ppid.value] else []) + [r.pid.value]] else g)
  {
  }

  // ----- Descendants -----

  /** `b` is reached from `a` by one or more child links. */
  ghost predicate Descendant(g: Graph<int>, a: int, b: int) {
    exists w :: |w| > 1 && WalkFromTo(g, w, a, b)
  }

  lemma ChildIsDescendant(g: Graph<int>, a: int, b: int)
    requires Edge(g, a, b)
    ensures Descendant(g, a, b)
  {
    assert WalkFromTo(g, [a, b], a, b);
  }

  lemma WalksCompose(g: Graph<int>, v: seq<int>, w: seq<int>, a: int, b: int, c: int)
    requires WalkFromTo(g, v, a, b) && WalkFromTo(g, w, b, c)
    ensures WalkFromTo(g, v + w[1..], a, c)
  {
  }

  lemma DescendantTransitive(g: Graph<int>, a: int, b: int, c: int)
    requires Descendant(g, a, b) && Descendant(g, b, c)
    ensures Descendant(g, a, c)
  {
    var v :| |v| > 1 && WalkFromTo(g, v, a, b);
    var w :| |w| > 1 && WalkFromTo(g, w, b, c);
    WalksCompose(g, v, w, a, b, c);
  }

  /** Descendants are the children and their descendants. */
  lemma DescendantByChild(g: Graph<int>, a: int, b: int)
    ensures Descendant(g, a, b) <==> exists c :: Edge(g, a, c) && (b == c || Descendant(g, c, b))
  {
    if Descendant(g, a, b) {
      var w :| |w| > 1 && WalkFromTo(g, w, a, b);
      assert Edge(g, a, w[1]);
      if |w| > 2 { assert WalkFromTo(g, w[1..], w[1], b); }
    }
    if c :| Edge(g, a, c) && (b == c || Descendant(g, c, b)) {
      ChildIsDescendant(g, a, c);
      if b != c { DescendantTransitive(g, a, c, b); }
    }
  }

  ghost predicate AtOrBelow(g: Graph<int>, root: int, n: int) {
    n == root || Descendant(g, root, n)
  }

  ghost predicate AcyclicBelow(g: Graph<int>, root: int) {
    forall n :: AtOrBelow(g, root, n) ==> !Descendant(g, n, n)
  }

  /** From `root` down, no process has two parents, nor is listed twice under one. */
  ghost predicate SingleParentsBelow(g: Graph<int>, root: int) {
    && (forall a, b, c :: AtOrBelow(g, root, a) && AtOrBelow(g, root, b) && Edge(g, a, c) && Edge(g, b, c) ==> a == b)
    && (forall a :: AtOrBelow(g, root, a) ==> Distinct(Kids(g, a)))
  }

  function Kids(g: Graph<int>, p: int): seq<int> {
    if p in g then g[p] else []
  }

  /** The children of all the listed processes, as often as they are listed. */
  ghost function AllKids(g: Graph<int>, ps: seq<int>): multiset<int> {
    if ps == [] then multiset{} else AllKids(g, ps[..|ps| - 1]) + multiset(Kids(g, ps[|ps| - 1]))
  }

  lemma {:induction false} AllKidsConcat(g: Graph<int>, ps: seq<int>, qs: seq<int>)
    ensures AllKids(g, ps + qs) == AllKids(g, ps) + AllKids(g, qs)
  {
    if qs == [] {
      assert ps + qs == ps;
    } else {
      assert (ps + qs)[..|ps + qs| - 1] == ps + qs[..|qs| - 1];
      AllKidsConcat(g, ps, qs[..|qs| - 1]);
    }
  }

  // ----- The visit -----

  /**
   `out` lists the subtrees below `kids`: every process after all of its descendants, and as often as
   it is one of `kids` or a child of a listed process.
   */
  ghost predicate Lists(g: Graph<int>, kids: seq<int>, out: seq<int>) {
    && (forall x :: x in out <==> exists k :: k in kids && AtOrBelow(g, k, x))
    && multiset(out) == multiset(kids) + AllKids(g, out)
    && (forall i, x :: 0 <= i < |out| && Descendant(g, out[i], x) ==> x in out[..i])
  }

  class Visitor {
    const childrenByParent: Graph<int>
    var descendants: seq<int>

    constructor (g: Graph<int>)
      ensures childrenByParent == g && descendants == []
    {
      childrenByParent, descendants := g, [];
    }

    /** `path` leads from the root to `pid`; it bounds the depth of the recursion. */
    method Visit(pid: int, ghost root: int, ghost path: seq<int>)
      requires AcyclicBelow(childrenByParent, root)
      requires WalkFromTo(childrenByParent, path, root, pid) && Distinct(path)
      modifies this`descendants
      decreases Nodes(childrenByParent) + {root} - Elems(path)
      ensures old(descendants) <= descendants
      ensures Lists(childrenByParent, Kids(childrenByParent, pid), descendants[|old(descendants)|..])
    {
      hide *;
      var kids := if pid in childrenByParent then childrenByParent[pid] else [];
      ghost var before := descendants;
      NoKids(childrenByParent, pid);
      assert kids[..0] == [] && descendants[|before|..] == [];
      for i := 0 to |kids|
        invariant before <= descendants
        invariant Lists(childrenByParent, kids[..i], descendants[|before|..])
      {
        ghost var done := descendants;
        KidOnPath(childrenByParent, root, path, pid, kids, i);
        Visit(kids[i], root, path + [kids[i]]);
        descendants := descendants + [kids[i]];
        assert WalkFromTo(childrenByParent, path, root, pid) && Distinct(path);
        AddSubtree(childrenByParent, kids, i, done[|before|..], descendants[|done|..|descendants| - 1]);
        assert descendants[|before|..] == done[|before|..] + descendants[|done|..|descendants| - 1] + [kids[i]];
      }
      assert kids[..|kids|] == kids;
    }
  }

  lemma NoKids(g: Graph<int>, pid: int)
    ensures Lists(g, [], []) && Kids(g, pid) == if pid in g then g[pid] else []
  {
  }

  /** Below the root no process on a path descends from itself. */
  lemma PathIsAcyclic(g: Graph<int>, root: int, path: seq<int>, k: nat)
    requires AcyclicBelow(g, root) && Walk(g, path) && path[0] == root && k < |path|
    ensures !Descendant(g, path[k], path[k])
  {
    if k > 0 { assert WalkFromTo(g, path[..k + 1], root, path[k]); }
  }

  /** A child extends the path without repeating a node of it. */
  lemma KidOnPath(g: Graph<int>, root: int, path: seq<int>, pid: int, kids: seq<int>, i: nat)
    requires AcyclicBelow(g, root) && WalkFromTo(g, path, root, pid) && Distinct(path)
    requires kids == (if pid in g then g[pid] else []) && i < |kids|
    ensures WalkFromTo(g, path + [kids[i]], root, kids[i]) && Distinct(path + [kids[i]])
    ensures kids[i] in Nodes(g) + {root} - Elems(path)
    ensures Elems(path + [kids[i]]) == Elems(path) + {kids[i]}
  {
    var c := kids[i];
    assert Edge(g, pid, c);
    EdgeIntoNodes(g, pid, c);
    WalkStep(g, path, c);
    ElemsStep(path, c);
    DistinctStep(path, c);
    if c in path {
      var k :| 0 <= k < |path| && path[k] == c;
      PathIsAcyclic(g, root, path, k);
      assert Walk(g, path[k..]);
      WalkStep(g, path[k..], c);
      assert WalkFromTo(g, path[k..] + [c], c, c);
    }
  }

  /** The listing below one process holds exactly its descendants. */
  lemma ListsDescendants(g: Graph<int>, p: int, out: seq<int>, x: int)
    requires Lists(g, Kids(g, p), out)
    ensures x in out <==> Descendant(g, p, x)
  {
    DescendantByChild(g, p, x);
    assert forall k :: k in Kids(g, p) <==> Edge(g, p, k);
  }

  lemma AddSubtree(g: Graph<int>, kids: seq<int>, i: nat, out: seq<int>, below: seq<int>)
    requires i < |kids| && Lists(g, kids[..i], out) && Lists(g, Kids(g, kids[i]), below)
    ensures Lists(g, kids[..i + 1], out + below + [kids[i]])
  {
    hide Descendant, AllKids, Kids, AtOrBelow;
    var c := kids[i];
    forall x ensures x in below <==> Descendant(g, c, x) { ListsDescendants(g, c, below, x); }
    assert kids[..i + 1] == kids[..i] + [c];
    AppendedOrder(g, c, out, below);
    AppendedMembers(g, kids[..i], c, out, below);
    AppendedCount(g, kids[..i], c, out, below);
  }

  lemma AppendedCount(g: Graph<int>, kids: seq<int>, c: int, out: seq<int>, below: seq<int>)
    requires multiset(out) == multiset(kids) + AllKids(g, out)
    requires multiset(below) == multiset(Kids(g, c)) + AllKids(g, below)
    ensures multiset(out + below + [c]) == multiset(kids + [c]) + AllKids(g, out + below + [c])
  {
    AllKidsConcat(g, out, below);
    assert (out + below + [c])[..|out + below|] == out + below;
  }

  lemma AppendedOrder(g: Graph<int>, c: int, out: seq<int>, below: seq<int>)
    requires forall i, x :: 0 <= i < |out| && Descendant(g, out[i], x) ==> x in out[..i]
    requires forall i, x :: 0 <= i < |below| && Descendant(g, below[i], x) ==> x in below[..i]
    requires forall x :: Descendant(g, c, x) ==> x in below
    ensures var all := out + below + [c]; forall i, x :: 0 <= i < |all| && Descendant(g, all[i], x) ==> x in all[..i]
  {
    hide Descendant;
    var all := out + below + [c];
    forall i, x | 0 <= i < |all| && Descendant(g, all[i], x) ensures x in all[..i] {
      if i < |out| {
        assert all[..i] == out[..i];
      } else if i < |out| + |below| {
        assert all[..i] == out + below[..i - |out|];
      } else {
        assert all[..i] == out + below;
      }
    }
  }

  lemma AppendedMembers(g: Graph<int>, kids: seq<int>, c: int, out: seq<int>, below: seq<int>)
    requires forall x :: x in out <==> exists k :: k in kids && AtOrBelow(g, k, x)
    requires forall x :: x in below <==> Descendant(g, c, x)
    ensures forall x :: x in out + below + [c] <==> exists k :: k in kids + [c] && AtOrBelow(g, k, x)
  {
    hide Descendant;
    var all := out + below + [c];
    forall x | x in all ensures exists k :: k in kids + [c] && AtOrBelow(g, k, x) {
      if x in out {
        var k :| k in kids && AtOrBelow(g, k, x);
        assert k in kids + [c];
      } else {
        assert c in kids + [c] && AtOrBelow(g, c, x);
      }
    }
    forall x, k | k in kids + [c] && AtOrBelow(g, k, x) ensures x in all {
      if k in kids { assert x in out; }
    }
  }

  // ----- How often a process is listed -----

  /** Where a process has one parent, which lists it once, it is listed as often as that parent. */
  lemma {:induction false} AsOftenAsParent(g: Graph<int>, ps: seq<int>, p: int, x: int)
    requires forall q :: q in ps && x in Kids(g, q) ==> q == p
    requires x in Kids(g, p) && Distinct(Kids(g, p))
    ensures AllKids(g, ps)[x] == multiset(ps)[p]
  {
    CountOfDistinct(Kids(g, p), x);
    if ps != [] {
      var front, last := ps[..|ps| - 1], ps[|ps| - 1];
      assert ps == front + [last] && forall q :: q in front ==> q in ps;
      AsOftenAsParent(g, front, p, x);
    }
  }

  lemma {:induction false} CountOfDistinct(s: seq<int>, x: int)
    requires Distinct(s)
    ensures multiset(s)[x] == if x in s then 1 else 0
  {
    if s != [] {
      var front, last := s[..|s| - 1], s[|s| - 1];
      assert s == front + [last];
      DistinctStep(front, last);
      CountOfDistinct(front, x);
    }
  }

  lemma {:induction false} DistinctByCount(s: seq<int>)
    requires forall x :: multiset(s)[x] <= 1
    ensures Distinct(s)
  {
    if s != [] {
      var front, last := s[..|s| - 1], s[|s| - 1];
      assert s == front + [last];
      forall x ensures multiset(front)[x] <= 1 { assert multiset(s)[x] == multiset(front)[x] + multiset([last])[x]; }
      DistinctByCount(front);
      DistinctStep(front, last);
      assert multiset(s)[last] == multiset(front)[last] + 1;
      assert last in front <==> multiset(front)[last] > 0;
    }
  }

  /** The children of one listed process are among the children of all. */
  lemma {:induction false} KidsOfOne(g: Graph<int>, ps: seq<int>, i: nat, j: nat)
    requires i < |ps| && j < |ps|
    ensures multiset(Kids(g, ps[i])) <= AllKids(g, ps)
    ensures i != j ==> multiset(Kids(g, ps[i])) + multiset(Kids(g, ps[j])) <= AllKids(g, ps)
  {
    hide *;
    var n := |ps| - 1;
    KidsStep(g, ps);
    assert i < n ==> ps[..n][i] == ps[i];
    assert j < n ==> ps[..n][j] == ps[j];
    if i < n && j < n {
      KidsOfOne(g, ps[..n], i, j);
    } else if i < n {
      KidsOfOne(g, ps[..n], i, i);
    } else if j < n {
      KidsOfOne(g, ps[..n], j, j);
    }
  }

  lemma KidsStep(g: Graph<int>, ps: seq<int>)
    requires ps != []
    ensures AllKids(g, ps) == AllKids(g, ps[..|ps| - 1]) + multiset(Kids(g, ps[|ps| - 1]))
  {
  }

  /** Seen from the root, a listing holds the children of the root and of everything listed. */
  lemma FromRoot(g: Graph<int>, root: int, out: seq<int>)
    requires Lists(g, Kids(g, root), out)
    ensures multiset(out) == AllKids(g, [root] + out)
    ensures forall n :: n in [root] + out <==> AtOrBelow(g, root, n)
  {
    forall n ensures n in [root] + out <==> AtOrBelow(g, root, n) { ListsDescendants(g, root, out, n); }
    AllKidsConcat(g, [root], out);
    assert [root][..0] == [];
  }

  /** Along a walk down from the root every process is listed once. */
  lemma {:induction false} ListedOnce(g: Graph<int>, root: int, out: seq<int>, w: seq<int>)
    requires Lists(g, Kids(g, root), out) && SingleParentsBelow(g, root) && !Descendant(g, root, root)
    requires Walk(g, w) && w[0] == root
    ensures multiset([root] + out)[w[|w| - 1]] == 1
    decreases |w|
  {
    FromRoot(g, root, out);
    var x := w[|w| - 1];
    ListsDescendants(g, root, out, root);
    if |w| == 1 {
      assert multiset(out)[root] == 0;
    } else {
      var p := w[|w| - 2];
      assert Edge(g, p, x) && Walk(g, w[..|w| - 1]) && WalkFromTo(g, w, root, x);
      ListedOnce(g, root, out, w[..|w| - 1]);
      assert p in [root] + out && x in Kids(g, p);
      assert forall q :: x in Kids(g, q) <==> Edge(g, q, x);
      AsOftenAsParent(g, [root] + out, p, x);
    }
  }

  /** Without a cycle below the root, every descendant is listed once exactly when no process there has two places. */
  lemma ListedOnceExactly(g: Graph<int>, root: int, out: seq<int>)
    requires Lists(g, Kids(g, root), out) && AcyclicBelow(g, root)
    ensures Distinct(out) <==> SingleParentsBelow(g, root)
  {
    FromRoot(g, root, out);
    if SingleParentsBelow(g, root) {
      forall x ensures multiset(out)[x] <= 1 {
        if x in out {
          assert AtOrBelow(g, root, x);
          var w := SubtreeWalk(g, root, x);
          ListedOnce(g, root, out, w);
        }
      }
      DistinctByCount(out);
    }
    if Distinct(out) { DistinctMeansSingle(g, root, out); }
  }

  lemma SubtreeWalk(g: Graph<int>, a: int, x: int) returns (w: seq<int>)
    requires AtOrBelow(g, a, x)
    ensures Walk(g, w) && w[0] == a && w[|w| - 1] == x
  {
    if x == a {
      w := [a];
    } else {
      w :| |w| > 1 && WalkFromTo(g, w, a, x);
    }
  }

  lemma DistinctMeansSingle(g: Graph<int>, root: int, out: seq<int>)
    requires Distinct(out) && multiset(out) == AllKids(g, [root] + out)
    requires forall n :: n in [root] + out <==> AtOrBelow(g, root, n)
    ensures SingleParentsBelow(g, root)
  {
    hide AtOrBelow;
    var all := [root] + out;
    forall x ensures AllKids(g, all)[x] <= 1 { CountOfDistinct(out, x); }
    forall a, b, c | AtOrBelow(g, root, a) && AtOrBelow(g, root, b) && Edge(g, a, c) && Edge(g, b, c) ensures a == b {
      var i :| 0 <= i < |all| && all[i] == a;
      var j :| 0 <= j < |all| && all[j] == b;
      KidsOfOne(g, all, i, j);
      assert multiset(Kids(g, a))[c] >= 1 && multiset(Kids(g, b))[c] >= 1;
    }
    forall a | AtOrBelow(g, root, a) ensures Distinct(Kids(g, a)) {
      var i :| 0 <= i < |all| && all[i] == a;
      KidsOfOne(g, all, i, i);
      DistinctByCount(Kids(g, a));
    }
  }

  // ----- When the visit returns -----

  /** The visit of `pid` returns without ever being more than `depth` calls deep. */
  ghost predicate Returns(g: Graph<int>, pid: int, depth: nat)
    decreases depth
  {
    depth > 0 && forall k :: k in Kids(g, pid) ==> Returns(g, k, depth - 1)
  }

  /** Calls nest as deep as there are walks. */
  lemma {:induction false} WalksAreCalls(g: Graph<int>, w: seq<int>, depth: nat)
    requires Walk(g, w) && Returns(g, w[0], depth)
    ensures |w| <= depth
  {
    if |w| > 1 {
      assert Edge(g, w[0], w[1]) && w[1] in Kids(g, w[0]);
      WalksAreCalls(g, w[1..], depth - 1);
    }
  }

  /** From a process that descends from itself there are walks of any length. */
  lemma {:induction false} LongWalk(g: Graph<int>, n: int, length: nat) returns (w: seq<int>)
    requires Descendant(g, n, n)
    ensures WalkFromTo(g, w, n, n) && |w| > length
  {
    if length == 0 {
      w := [n];
    } else {
      var c :| |c| > 1 && WalkFromTo(g, c, n, n);
      w := LongWalk(g, n, length - 1);
      WalksCompose(g, w, c, n, n, n);
      w := w + c[1..];
    }
  }

  lemma CycleNeverReturns(g: Graph<int>, root: int, depth: nat)
    requires !AcyclicBelow(g, root)
    ensures !Returns(g, root, depth)
  {
    var n :| AtOrBelow(g, root, n) && Descendant(g, n, n);
    var down := SubtreeWalk(g, root, n);
    var around := LongWalk(g, n, depth);
    WalksCompose(g, down, around, root, n, n);
    if Returns(g, root, depth) { WalksAreCalls(g, down + around[1..], depth); }
  }

  /** Without a cycle no path repeats a process, so the calls are no deeper than there are processes left. */
  lemma {:induction false} AcyclicReturns(g: Graph<int>, root: int, pid: int, path: seq<int>)
    requires AcyclicBelow(g, root) && WalkFromTo(g, path, root, pid) && Distinct(path)
    ensures Returns(g, pid, |Nodes(g) + {root} - Elems(path)| + 1)
    decreases Nodes(g) + {root} - Elems(path)
  {
    hide AcyclicBelow, Elems, Nodes, WalkFromTo, Distinct;
    var left := Nodes(g) + {root} - Elems(path);
    forall k | k in Kids(g, pid) ensures Returns(g, k, |left|) {
      var i :| 0 <= i < |Kids(g, pid)| && Kids(g, pid)[i] == k;
      KidOnPath(g, root, path, pid, Kids(g, pid), i);
      assert Nodes(g) + {root} - Elems(path + [k]) == left - {k};
      AcyclicReturns(g, root, k, path + [k]);
    }
  }

  /** The visit of the root returns exactly when there is no cycle below it. */
  lemma ReturnsExactly(g: Graph<int>, root: int)
    ensures (exists depth :: Returns(g, root, depth)) <==> AcyclicBelow(g, root)
  {
    hide AcyclicBelow, Returns;
    if AcyclicBelow(g, root) {
      RootPath(g, root);
      AcyclicReturns(g, root, root, [root]);
    } else {
      forall depth: nat ensures !Returns(g, root, depth) { CycleNeverReturns(g, root, depth); }
    }
  }

  // ----- The process table -----

  /** The table has one line for each process. */
  ghost predicate DistinctPids(rows: seq<Row>) {
    forall i, j :: 0 <= i < j < |rows| && rows[i].Usable() && rows[j].Usable() ==> rows[i].pid != rows[j].pid
  }

  /** `p` is the parent of `c` in the table. */
  ghost predicate IsParent(rows: seq<Row>, p: int, c: int) {
    exists r :: r in rows && r == Row(Some(c), Some(p))
  }

  lemma EdgeIsParent(rows: seq<Row>, g: Graph<int>, p: int, c: int)
    requires IsChildMap(rows, g)
    ensures Edge(g, p, c) <==> IsParent(rows, p, c)
  {
    var sel := (r: Row) => r.Usable() && r.ppid.value == p;
    if Edge(g, p, c) {
      var i :| 0 <= i < |g[p]| && g[p][i] == c;
      FilterMembers(sel, rows, ChildRows(rows, p)[i]);
      assert ChildRows(rows, p)[i] == Row(Some(c), Some(p));
    }
    if r :| r in rows && r == Row(Some(c), Some(p)) {
      FilterMembers(sel, rows, r);
      var i :| 0 <= i < |ChildRows(rows, p)| && ChildRows(rows, p)[i] == r;
      assert ChildPids(rows, p)[i] == c;
    }
  }

  /** Distinct process identifiers give every process one parent and one place. */
  lemma DistinctPidsSingleParents(rows: seq<Row>, root: int)
    requires DistinctPids(rows)
    ensures SingleParentsBelow(ChildMap(rows), root)
  {
    var g := ChildMap(rows);
    ChildMapIs(rows);
    hide AtOrBelow, ChildMap;
    forall a, b, c | Edge(g, a, c) && Edge(g, b, c) ensures a == b {
      EdgeIsParent(rows, g, a, c);
      EdgeIsParent(rows, g, b, c);
    }
    forall a ensures Distinct(Kids(g, a)) { if a in g { ChildrenDistinct(rows, a); } }
  }

  lemma {:induction false} ChildrenDistinct(rows: seq<Row>, a: int)
    requires DistinctPids(rows)
    ensures Distinct(ChildPids(rows, a))
    ensures forall c :: c in ChildPids(rows, a) ==> exists i :: 0 <= i < |rows| && rows[i] == Row(Some(c), Some(a))
  {
    hide ChildPids, Distinct;
    if rows == [] {
      NoChildren(a);
    } else {
      var front, last := rows[..|rows| - 1], rows[|rows| - 1];
      assert rows == front + [last];
      assert forall i :: 0 <= i < |front| ==> front[i] == rows[i];
      ChildrenDistinct(front, a);
      ChildPidsStep(front, last, a);
      if last.Usable() && last.ppid.value == a {
        DistinctStep(ChildPids(front, a), last.pid.value);
        assert rows[|rows| - 1] == Row(Some(last.pid.value), Some(a));
      } else {
        assert ChildPids(front, a) + [] == ChildPids(front, a);
      }
    }
  }

  lemma NoChildren(a: int)
    ensures ChildPids([], a) == [] && Distinct<int>([])
  {
  }

  /** The ancestry relation of the table itself. */
  ghost function ChildMap(rows: seq<Row>): Graph<int> {
    map p | p in Elems(Map(PpidOf, rows)) && ChildPids(rows, p) != [] :: ChildPids(rows, p)
  }

  /** The table must not have a cycle below the root: the original recursion would not return. */
  method ListDescendantPids(rows: seq<Row>, root: int) returns (descendants: seq<int>)
    requires AcyclicBelow(ChildMap(rows), root)
    ensures forall x :: x in descendants <==> Descendant(ChildMap(rows), root, x)
    ensures Distinct(descendants) <==> SingleParentsBelow(ChildMap(rows), root)
    ensures forall i, x :: 0 <= i < |descendants| && Descendant(ChildMap(rows), descendants[i], x) ==> x in descendants[..i]
  {
    hide *;
    var childrenByParent := BuildChildMap(rows);
    ChildMapUnique(rows, childrenByParent);
    var visitor := new Visitor(childrenByParent);
    RootPath(childrenByParent, root);
    visitor.Visit(root, root, [root]);
    descendants := visitor.descendants;
    assert descendants[0..] == descendants;
    ListedBelow(childrenByParent, root, descendants);
    ListedOnceExactly(childrenByParent, root, descendants);
  }

  lemma RootPath(g: Graph<int>, root: int)
    ensures WalkFromTo(g, [root], root, root) && Distinct([root])
  {
  }

  lemma ListedBelow(g: Graph<int>, root: int, out: seq<int>)
    requires Lists(g, Kids(g, root), out)
    ensures forall x :: x in out <==> Descendant(g, root, x)
    ensures forall i, x :: 0 <= i < |out| && Descendant(g, out[i], x) ==> x in out[..i]
  {
    forall x ensures x in out <==> Descendant(g, root, x) { ListsDescendants(g, root, out, x); }
  }

  lemma ChildMapIs(rows: seq<Row>)
    ensures IsChildMap(rows, ChildMap(rows))
  {
    forall p | ChildPids(rows, p) != [] ensures p in Elems(Map(PpidOf, rows)) {
      var r := ChildRows(rows, p)[0];
      FilterMembers((r: Row) => r.Usable() && r.ppid.value == p, rows, r);
      var i :| 0 <= i < |rows| && rows[i] == r;
      assert Map(PpidOf, rows)[i] == p;
    }
  }

  lemma ChildMapUnique(rows: seq<Row>, g: Graph<int>)
    requires IsChildMap(rows, g)
    ensures g == ChildMap(rows)
  {
    ChildMapIs(rows);
    var h := ChildMap(rows);
    assert forall p :: p in g <==> p in h;
    assert forall p :: p in g ==> g[p] == h[p];
  }

  /** The order in which a process tree is terminated: the root last, every process after its descendants. */
  method TerminationOrder(rows: seq<Row>, root: int) returns (pids: seq<int>)
    requires AcyclicBelow(ChildMap(rows), root)
    ensures forall x :: x in pids <==> AtOrBelow(ChildMap(rows), root, x)
    ensures Distinct(pids) <==> SingleParentsBelow(ChildMap(rows), root)
    ensures forall i, x :: 0 <= i < |pids| && Descendant(ChildMap(rows), pids[i], x) ==> x in pids[..i]
  {
    var descendants := ListDescendantPids(rows, root);
    hide ChildMap, Descendant, SingleParentsBelow;
    DistinctStep(descendants, root);
    pids := descendants + [root];
    assert forall i :: 0 <= i <= |descendants| ==> pids[..i] == descendants[..i];
  }
}
