/** The adjacency-list graph of trabalhos/uva_11710_expensive_subway/Graph.cpp,
    declared in trabalhos/uva_11857_driving_range/Graph.hpp and copied into
    trabalhos/uva_11857_driving_range/uva_11857.cpp: `appendEdge`, the
    iterative `dfs` and `isConnected`. Vertices are 0..size-1. */
module Graphs {

  /** `Edge` is the pair (weight, destination). */
  datatype Edge = Edge(weight: int, dest: nat)

  datatype Graph = Graph(adj: seq<seq<Edge>>, directed: bool)

  /** Every destination names a vertex of the graph. */
  ghost predicate WellFormed(g: Graph)
  {
    forall u, i :: 0 <= u < |g.adj| && 0 <= i < |g.adj[u]| ==> g.adj[u][i].dest < |g.adj|
  }

  /** `size()`: the number of vertices. */
  function Size(g: Graph): nat
  {
    |g.adj|
  }

  /** The sizing constructor: `size` vertices and no edges. */
  function NewGraph(size: nat, directed: bool): (g: Graph)
    ensures Size(g) == size && g.directed == directed && WellFormed(g)
    ensures forall v :: 0 <= v < size ==> g.adj[v] == []
  {
    Graph(seq(size, _ => []), directed)
  }

  /** `appendEdge(vertex, edge)`: the edge goes to the end of the vertex's
      list and, in an undirected graph, (weight, vertex) to the end of the
      destination's list. No other list changes. */
  function AppendEdge(g: Graph, vertex: nat, edge: Edge): (h: Graph)
    requires vertex < Size(g) && edge.dest < Size(g)
    ensures Size(h) == Size(g) && h.directed == g.directed
    ensures WellFormed(g) ==> WellFormed(h)
    ensures g.directed ==> h.adj[vertex] == g.adj[vertex] + [edge]
    ensures !g.directed && edge.dest != vertex ==>
              h.adj[vertex] == g.adj[vertex] + [edge] &&
              h.adj[edge.dest] == g.adj[edge.dest] + [Edge(edge.weight, vertex)]
    ensures !g.directed && edge.dest == vertex ==>
              h.adj[vertex] == g.adj[vertex] + [edge, Edge(edge.weight, vertex)]
    ensures forall u :: 0 <= u < Size(g) && u != vertex && (g.directed || u != edge.dest) ==>
              h.adj[u] == g.adj[u]
  {
    var first := g.adj[vertex := g.adj[vertex] + [edge]];
    if g.directed then Graph(first, g.directed)
    else Graph(first[edge.dest := first[edge.dest] + [Edge(edge.weight, vertex)]], g.directed)
  }

  /** An undirected graph: u's list holds (w, v) as often as v's list holds
      (w, u). */
  ghost predicate Symmetric(g: Graph)
  {
    forall u, v, w :: 0 <= u < |g.adj| && 0 <= v < |g.adj| ==> Occurrences(g, u, v, w) == Occurrences(g, v, u, w)
  }

  /** How often (w, v) appears in u's list. */
  ghost function Occurrences(g: Graph, u: nat, v: nat, w: int): nat
    requires u < |g.adj|
  {
    multiset(g.adj[u])[Edge(w, v)]
  }

  /** In an undirected graph, appending an edge adds one occurrence of the
      edge to its vertex's list and one of the reverse edge to its
      destination's list. */
  lemma AppendEdgeOccurrences(g: Graph, vertex: nat, edge: Edge, u: nat, v: nat, w: int)
    requires vertex < Size(g) && edge.dest < Size(g) && !g.directed
    requires u < Size(g)
    ensures Occurrences(AppendEdge(g, vertex, edge), u, v, w) ==
              Occurrences(g, u, v, w)
              + (if u == vertex && v == edge.dest && w == edge.weight then 1 else 0)
              + (if u == edge.dest && v == vertex && w == edge.weight then 1 else 0)
  {
    var h := AppendEdge(g, vertex, edge);
    var back := Edge(edge.weight, vertex);
    if edge.dest == vertex {
      assert h.adj[vertex] == g.adj[vertex] + [edge, back];
      assert multiset(h.adj[vertex]) == multiset(g.adj[vertex]) + multiset{edge, back};
    } else {
      assert multiset(h.adj[vertex]) == multiset(g.adj[vertex]) + multiset{edge};
      assert multiset(h.adj[edge.dest]) == multiset(g.adj[edge.dest]) + multiset{back};
    }
  }

  /** Appending an edge to an undirected graph keeps it undirected. */
  lemma AppendEdgeSymmetric(g: Graph, vertex: nat, edge: Edge)
    requires vertex < Size(g) && edge.dest < Size(g)
    requires !g.directed && Symmetric(g)
    ensures Symmetric(AppendEdge(g, vertex, edge))
  {
    var h := AppendEdge(g, vertex, edge);
    forall u, v, w | 0 <= u < |h.adj| && 0 <= v < |h.adj|
      ensures Occurrences(h, u, v, w) == Occurrences(h, v, u, w)
    {
      assert Occurrences(g, u, v, w) == Occurrences(g, v, u, w);
      AppendEdgeOccurrences(g, vertex, edge, u, v, w);
      AppendEdgeOccurrences(g, vertex, edge, v, u, w);
    }
  }

  /** The graph of `n` vertices after appending the given (vertex, edge)
      pairs in order, as the drivers do with their input roads. */
  function Build(n: nat, directed: bool, roads: seq<(nat, Edge)>): (g: Graph)
    requires forall k :: 0 <= k < |roads| ==> roads[k].0 < n && roads[k].1.dest < n
    ensures Size(g) == n && g.directed == directed && WellFormed(g)
    ensures !directed ==> Symmetric(g)
  {
    if |roads| == 0 then NewGraph(n, directed)
    else
      var prev := Build(n, directed, roads[..|roads| - 1]);
      var last := roads[|roads| - 1];
      var v, e := last.0, last.1;
      assert !directed ==> Symmetric(AppendEdge(prev, v, e)) by {
        if !directed {
          AppendEdgeSymmetric(prev, v, e);
        }
      }
      AppendEdge(prev, v, e)
  }

  // Weights.

  /** The sum of the weights in one list. */
  function ListWeight(list: seq<Edge>): int
  {
    if |list| == 0 then 0 else ListWeight(list[..|list| - 1]) + list[|list| - 1].weight
  }

  /** The sum of the weights in lists 0..k-1. */
  function WeightUpTo(adj: seq<seq<Edge>>, k: nat): int
    requires k <= |adj|
  {
    if k == 0 then 0 else WeightUpTo(adj, k - 1) + ListWeight(adj[k - 1])
  }

  /** The sum of the weights over all adjacency lists. */
  function TotalWeight(g: Graph): int
  {
    WeightUpTo(g.adj, |g.adj|)
  }

  lemma {:induction false} WeightUpToEmpty(adj: seq<seq<Edge>>, k: nat)
    requires k <= |adj| && forall v :: 0 <= v < |adj| ==> adj[v] == []
    ensures WeightUpTo(adj, k) == 0
  {
    if k > 0 {
      WeightUpToEmpty(adj, k - 1);
    }
  }

  lemma ListWeightAppend(list: seq<Edge>, e: Edge)
    ensures ListWeight(list + [e]) == ListWeight(list) + e.weight
  {
    assert (list + [e])[..|list|] == list;
  }

  /** Replacing list v changes the sum by the difference of the two lists. */
  lemma {:induction false} WeightUpToUpdate(adj: seq<seq<Edge>>, v: nat, list: seq<Edge>, k: nat)
    requires v < |adj| && k <= |adj|
    ensures WeightUpTo(adj[v := list], k) ==
            WeightUpTo(adj, k) + (if v < k then ListWeight(list) - ListWeight(adj[v]) else 0)
  {
    if k > 0 {
      WeightUpToUpdate(adj, v, list, k - 1);
    }
  }

  /** Appending adds the edge's weight once to a directed graph and twice
      to an undirected one. */
  lemma WeightAfterAppend(g: Graph, vertex: nat, edge: Edge)
    requires vertex < Size(g) && edge.dest < Size(g)
    ensures TotalWeight(AppendEdge(g, vertex, edge)) == TotalWeight(g) + (if g.directed then 1 else 2) * edge.weight
  {
    var first := g.adj[vertex := g.adj[vertex] + [edge]];
    ListWeightAppend(g.adj[vertex], edge);
    WeightUpToUpdate(g.adj, vertex, g.adj[vertex] + [edge], |g.adj|);
    if !g.directed {
      var back := Edge(edge.weight, vertex);
      ListWeightAppend(first[edge.dest], back);
      WeightUpToUpdate(first, edge.dest, first[edge.dest] + [back], |first|);
    }
  }

  // Walks along adjacency entries.

  /** Some entry of u's list leads to v. */
  ghost predicate Adjacent(g: Graph, u: nat, v: nat)
  {
    u < |g.adj| && exists i :: 0 <= i < |g.adj[u]| && g.adj[u][i].dest == v
  }

  ghost predicate IsWalk(g: Graph, p: seq<nat>)
  {
    && |p| >= 1
    && (forall k :: 0 <= k < |p| ==> p[k] < |g.adj|)
    && (forall k :: 0 <= k < |p| - 1 ==> Adjacent(g, p[k], p[k + 1]))
  }

  /** t can be reached from s by following adjacency entries. */
  ghost predicate Reachable(g: Graph, s: nat, t: nat)
  {
    exists p :: IsWalk(g, p) && p[0] == s && p[|p| - 1] == t
  }

  lemma ReachableRefl(g: Graph, s: nat)
    requires s < |g.adj|
    ensures Reachable(g, s, s)
  {
    assert IsWalk(g, [s]);
  }

  lemma ReachableStep(g: Graph, s: nat, u: nat, v: nat)
    requires Reachable(g, s, u) && Adjacent(g, u, v) && v < |g.adj|
    ensures Reachable(g, s, v)
  {
    var p :| IsWalk(g, p) && p[0] == s && p[|p| - 1] == u;
    var q := p + [v];
    assert IsWalk(g, q);
  }

  lemma ReachableTrans(g: Graph, s: nat, u: nat, t: nat)
    requires Reachable(g, s, u) && Reachable(g, u, t)
    ensures Reachable(g, s, t)
  {
    var p :| IsWalk(g, p) && p[0] == s && p[|p| - 1] == u;
    var q :| IsWalk(g, q) && q[0] == u && q[|q| - 1] == t;
    var r := p + q[1..];
    forall k | 0 <= k < |r| - 1
      ensures Adjacent(g, r[k], r[k + 1])
    {
      if k < |p| - 1 {
        assert r[k] == p[k] && r[k + 1] == p[k + 1];
      } else {
        assert r[k] == q[k - |p| + 1] && r[k + 1] == q[k - |p| + 2];
      }
    }
    assert IsWalk(g, r);
  }

  /** A set of vertices that holds s and is closed under adjacency holds
      everything reachable from s. */
  lemma ClosedHoldsReachable(g: Graph, s: nat, t: nat, closed: set<nat>)
    requires s in closed
    requires forall u, v :: u in closed && Adjacent(g, u, v) ==> v in closed
    requires Reachable(g, s, t)
    ensures t in closed
  {
    var p :| IsWalk(g, p) && p[0] == s && p[|p| - 1] == t;
    var k := 0;
    while k < |p| - 1
      invariant 0 <= k <= |p| - 1
      invariant p[k] in closed
    {
      assert Adjacent(g, p[k], p[k + 1]);
      k := k + 1;
    }
  }

  /** In an undirected graph every entry has its reverse. */
  lemma AdjacentSymmetric(g: Graph, u: nat, v: nat)
    requires Symmetric(g) && WellFormed(g) && Adjacent(g, u, v)
    ensures Adjacent(g, v, u)
  {
    var i :| 0 <= i < |g.adj[u]| && g.adj[u][i].dest == v;
    var w := g.adj[u][i].weight;
    assert g.adj[u][i] in multiset(g.adj[u]);
    assert Occurrences(g, u, v, w) > 0;
    assert Occurrences(g, v, u, w) > 0;
    var j :| 0 <= j < |g.adj[v]| && g.adj[v][j] == Edge(w, u);
  }

  lemma ReachableSymmetric(g: Graph, s: nat, t: nat)
    requires Symmetric(g) && WellFormed(g) && Reachable(g, s, t)
    ensures Reachable(g, t, s)
  {
    var p :| IsWalk(g, p) && p[0] == s && p[|p| - 1] == t;
    var r := seq(|p|, k requires 0 <= k < |p| => p[|p| - 1 - k]);
    forall k | 0 <= k < |r| - 1
      ensures Adjacent(g, r[k], r[k + 1])
    {
      AdjacentSymmetric(g, p[|p| - 2 - k], p[|p| - 1 - k]);
    }
    assert IsWalk(g, r);
  }

  /** Every adjacency of `small` is one of `big`: walks of `small` are
      walks of `big`. */
  lemma ReachableInSupergraph(small: Graph, big: Graph, s: nat, t: nat)
    requires Size(small) == Size(big)
    requires forall u, v :: Adjacent(small, u, v) ==> Adjacent(big, u, v)
    requires Reachable(small, s, t)
    ensures Reachable(big, s, t)
  {
    var p :| IsWalk(small, p) && p[0] == s && p[|p| - 1] == t;
    assert IsWalk(big, p);
  }

  /** Appending keeps every adjacency and adds the new edge's, in both
      directions when the graph is undirected. */
  lemma AdjacentAfterAppend(g: Graph, vertex: nat, edge: Edge)
    requires vertex < Size(g) && edge.dest < Size(g)
    ensures forall u, v :: Adjacent(g, u, v) ==> Adjacent(AppendEdge(g, vertex, edge), u, v)
    ensures Adjacent(AppendEdge(g, vertex, edge), vertex, edge.dest)
    ensures !g.directed ==> Adjacent(AppendEdge(g, vertex, edge), edge.dest, vertex)
  {
    var h := AppendEdge(g, vertex, edge);
    forall u: nat, v: nat | Adjacent(g, u, v)
      ensures Adjacent(h, u, v)
    {
      var i :| 0 <= i < |g.adj[u]| && g.adj[u][i].dest == v;
      assert h.adj[u][i] == g.adj[u][i];
    }
    assert h.adj[vertex][|g.adj[vertex]|] == edge;
    if !g.directed {
      if edge.dest == vertex {
        assert h.adj[vertex][|g.adj[vertex]| + 1].dest == vertex;
      } else {
        assert h.adj[edge.dest][|g.adj[edge.dest]|].dest == vertex;
      }
    }
  }

  lemma ReachableAfterAppend(g: Graph, vertex: nat, edge: Edge, s: nat, t: nat)
    requires vertex < Size(g) && edge.dest < Size(g)
    requires Reachable(g, s, t)
    ensures Reachable(AppendEdge(g, vertex, edge), s, t)
  {
    AdjacentAfterAppend(g, vertex, edge);
    ReachableInSupergraph(g, AppendEdge(g, vertex, edge), s, t);
  }

  // Depth-first search.

  /** The number of marked vertices. */
  function Count(marks: seq<bool>): (c: nat)
    ensures c <= |marks|
  {
    if |marks| == 0 then 0 else Count(marks[..|marks| - 1]) + (if marks[|marks| - 1] then 1 else 0)
  }

  lemma {:induction false} CountMark(marks: seq<bool>, v: nat)
    requires v < |marks| && !marks[v]
    ensures Count(marks[v := true]) == Count(marks) + 1
  {
    var m := marks[v := true];
    if v < |marks| - 1 {
      assert m[..|m| - 1] == marks[..|marks| - 1][v := true];
      CountMark(marks[..|marks| - 1], v);
    } else {
      assert m[..|m| - 1] == marks[..|marks| - 1];
    }
  }

  /** The inner loop of `dfs`: pushes the destination of every entry of v's
      list, in list order. */
  method PushNeighbours(g: Graph, start: nat, v: nat, stack: seq<nat>) returns (pushed: seq<nat>)
    requires WellFormed(g) && v < Size(g) && Reachable(g, start, v)
    requires forall k :: 0 <= k < |stack| ==> stack[k] < Size(g) && Reachable(g, start, stack[k])
    ensures |pushed| == |stack| + |g.adj[v]| && pushed[..|stack|] == stack
    ensures forall k :: 0 <= k < |g.adj[v]| ==> pushed[|stack| + k] == g.adj[v][k].dest
    ensures forall k :: 0 <= k < |pushed| ==> pushed[k] < Size(g) && Reachable(g, start, pushed[k])
  {
    var list := g.adj[v];
    pushed := stack;
    var i := 0;
    while i < |list|
      invariant 0 <= i <= |list|
      invariant |pushed| == |stack| + i && pushed[..|stack|] == stack
      invariant forall k :: 0 <= k < i ==> pushed[|stack| + k] == list[k].dest
      invariant forall k :: 0 <= k < |pushed| ==> pushed[k] < Size(g) && Reachable(g, start, pushed[k])
    {
      assert Adjacent(g, v, list[i].dest);
      ReachableStep(g, start, v, list[i].dest);
      pushed := pushed + [list[i].dest];
      i := i + 1;
    }
  }

  /** Every entry of a marked vertex leads to a marked vertex. */
  ghost predicate MarksClosed(g: Graph, visited: seq<bool>)
    requires |visited| == Size(g) && WellFormed(g)
  {
    forall u, i :: 0 <= u < Size(g) && visited[u] && 0 <= i < |g.adj[u]| ==> visited[g.adj[u][i].dest]
  }

  /** Once the stack is empty the marks are closed, so they cover
      everything reachable from the start. */
  lemma MarksCoverReachable(g: Graph, start: nat, visited: seq<bool>)
    requires WellFormed(g) && start < Size(g) && |visited| == Size(g)
    requires MarksClosed(g, visited) && visited[start]
    ensures forall t :: 0 <= t < Size(g) && Reachable(g, start, t) ==> visited[t]
  {
    var closed := set v | 0 <= v < Size(g) && visited[v];
    forall u, w | u in closed && Adjacent(g, u, w)
      ensures w in closed
    {
      var i :| 0 <= i < |g.adj[u]| && g.adj[u][i].dest == w;
    }
    forall t | 0 <= t < Size(g) && Reachable(g, start, t)
      ensures visited[t]
    {
      ClosedHoldsReachable(g, start, t, closed);
    }
  }

  /** What the loop of `dfs` keeps: the stack holds reachable vertices,
      every mark is reachable, every entry of a marked vertex is marked or
      still on the stack, and so is the start. */
  ghost predicate DfsInv(g: Graph, start: nat, visited: seq<bool>, stack: seq<nat>)
    requires WellFormed(g) && start < Size(g)
  {
    && |visited| == Size(g)
    && (forall k :: 0 <= k < |stack| ==> stack[k] < Size(g) && Reachable(g, start, stack[k]))
    && (forall v :: 0 <= v < Size(g) && visited[v] ==> Reachable(g, start, v))
    && (forall u, i :: 0 <= u < Size(g) && visited[u] && 0 <= i < |g.adj[u]| ==>
          visited[g.adj[u][i].dest] || g.adj[u][i].dest in stack)
    && (visited[start] || start in stack)
  }

  /** Popping a vertex that is already marked keeps the invariant. */
  lemma DfsSkip(g: Graph, start: nat, visited: seq<bool>, stack: seq<nat>, v: nat)
    requires WellFormed(g) && start < Size(g)
    requires DfsInv(g, start, visited, stack + [v])
    requires v < |visited| && visited[v]
    ensures DfsInv(g, start, visited, stack)
  {
    assert forall k :: 0 <= k < |stack| ==> (stack + [v])[k] == stack[k];
    forall u, i | 0 <= u < Size(g) && visited[u] && 0 <= i < |g.adj[u]| && !visited[g.adj[u][i].dest]
      ensures g.adj[u][i].dest in stack
    {
      assert g.adj[u][i].dest in stack + [v];
    }
    assert start in stack + [v] ==> visited[start] || start in stack;
  }

  /** Marking a popped vertex and pushing its whole list keeps the invariant. */
  lemma DfsVisit(g: Graph, start: nat, visited: seq<bool>, stack: seq<nat>, v: nat, pushed: seq<nat>)
    requires WellFormed(g) && start < Size(g)
    requires DfsInv(g, start, visited, stack + [v])
    requires v < |visited| && !visited[v]
    requires |pushed| == |stack| + |g.adj[v]| && pushed[..|stack|] == stack
    requires forall k :: 0 <= k < |g.adj[v]| ==> pushed[|stack| + k] == g.adj[v][k].dest
    requires forall k :: 0 <= k < |pushed| ==> pushed[k] < Size(g) && Reachable(g, start, pushed[k])
    ensures DfsInv(g, start, visited[v := true], pushed)
  {
    var marked := visited[v := true];
    assert (stack + [v])[|stack|] == v;
    forall u, i | 0 <= u < Size(g) && marked[u] && 0 <= i < |g.adj[u]| && !marked[g.adj[u][i].dest]
      ensures g.adj[u][i].dest in pushed
    {
      if u == v {
        assert pushed[|stack| + i] == g.adj[u][i].dest;
      } else {
        var w := g.adj[u][i].dest;
        assert w in stack + [v];
        assert w != v;
        var k :| 0 <= k < |stack| && stack[k] == w;
        assert pushed[k] == w;
      }
    }
    if start in stack {
      var k :| 0 <= k < |stack| && stack[k] == start;
      assert pushed[k] == start;
    }
  }

  /** `dfs(start)`: pops a vertex from the stack and, the first time it is
      seen, marks it and pushes every destination of its list. A vertex is
      marked exactly when it can be reached from the start. */
  method Dfs(g: Graph, start: nat) returns (visited: seq<bool>)
    requires WellFormed(g) && start < Size(g)
    ensures |visited| == Size(g)
    ensures forall v :: 0 <= v < Size(g) ==> (visited[v] <==> Reachable(g, start, v))
  {
    var n := Size(g);
    visited := seq(n, _ => false);
    var stack: seq<nat> := [start];
    ReachableRefl(g, start);
    while |stack| > 0
      invariant |visited| == n
      invariant DfsInv(g, start, visited, stack)
      decreases n - Count(visited), |stack|
    {
      var v := stack[|stack| - 1];
      var rest := stack[..|stack| - 1];
      assert stack == rest + [v];
      if !visited[v] {
        CountMark(visited, v);
        var pushed := PushNeighbours(g, start, v, rest);
        DfsVisit(g, start, visited, rest, v, pushed);
        visited := visited[v := true];
        stack := pushed;
      } else {
        DfsSkip(g, start, visited, rest, v);
        stack := rest;
      }
    }
    assert MarksClosed(g, visited);
    MarksCoverReachable(g, start, visited);
  }

  /** `isConnected()`: every vertex is reached from vertex 0. The graph
      must have a vertex 0. */
  method IsConnected(g: Graph) returns (connected: bool)
    requires WellFormed(g) && Size(g) >= 1
    ensures connected <==> forall v :: 0 <= v < Size(g) ==> Reachable(g, 0, v)
  {
    var visited := Dfs(g, 0);
    connected := true;
    var i := 0;
    while i < |visited| && connected
      invariant 0 <= i <= |visited|
      invariant connected <==> forall v :: 0 <= v < i ==> visited[v]
    {
      if !visited[i] {
        connected := false;
      }
      i := i + 1;
    }
  }
}
