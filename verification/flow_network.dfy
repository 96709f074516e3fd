/** The `Graph` of trabalhos/uri_1362_minha_camiseta_me_serve/main.cpp: a
    capacity matrix, the breadth-first search for a path of positive
    residual capacity, and the Edmonds-Karp `max_flow` that pushes the
    bottleneck along each such path until none remains. */
module FlowNetwork {

  type Matrix = seq<seq<int>>

  predicate Square(m: Matrix)
  {
    forall i :: 0 <= i < |m| ==> |m[i]| == |m|
  }

  /** No negative capacity. */
  ghost predicate NonNegative(m: Matrix)
    requires Square(m)
  {
    forall u, v :: 0 <= u < |m| && 0 <= v < |m| ==> m[u][v] >= 0
  }

  /** `Graph(size)`: a size x size matrix of zero capacities. */
  function NewGraph(size: nat): (m: Matrix)
    ensures Square(m) && |m| == size
    ensures forall u, v :: 0 <= u < size && 0 <= v < size ==> m[u][v] == 0
  {
    seq(size, _ => seq(size, _ => 0))
  }

  /** `add_edge`: sets the capacity from `from` to `to`, whatever it was;
      no other capacity changes. */
  function AddEdge(m: Matrix, from: nat, to: nat, weight: int): (r: Matrix)
    requires Square(m) && from < |m| && to < |m|
    ensures Square(r) && |r| == |m|
    ensures forall u, v :: 0 <= u < |m| && 0 <= v < |m| ==>
              r[u][v] == if u == from && v == to then weight else m[u][v]
  {
    m[from := m[from][to := weight]]
  }

  /** A second `add_edge` on the same pair overwrites the first. */
  lemma AddEdgeOverwrites(m: Matrix, from: nat, to: nat, first: int, second: int)
    requires Square(m) && from < |m| && to < |m|
    ensures AddEdge(AddEdge(m, from, to, first), from, to, second) == AddEdge(m, from, to, second)
  {
    var a := AddEdge(AddEdge(m, from, to, first), from, to, second);
    var b := AddEdge(m, from, to, second);
    assert forall u :: 0 <= u < |m| ==> a[u] == b[u];
  }

  // Paths of positive residual capacity.

  /** A path from a to b along entries greater than zero. */
  ghost predicate IsPath(m: Matrix, p: seq<nat>, a: nat, b: nat)
    requires Square(m)
  {
    && |p| >= 1 && p[0] == a && p[|p| - 1] == b
    && (forall k :: 0 <= k < |p| ==> p[k] < |m|)
    && (forall k :: 0 <= k < |p| - 1 ==> m[p[k]][p[k + 1]] > 0)
  }

  ghost predicate Reach(m: Matrix, a: nat, b: nat)
    requires Square(m)
  {
    exists p :: IsPath(m, p, a, b)
  }

  /** The search tree: the source is visited, and every other visited
      vertex has a visited parent, discovered earlier, joined to it by an
      entry greater than zero. */
  ghost predicate Tree(m: Matrix, source: nat, visited: seq<bool>, parent: seq<int>, order: seq<nat>)
    requires Square(m)
  {
    && |visited| == |m| && |parent| == |m| && |order| == |m|
    && source < |m| && visited[source]
    && forall v :: 0 <= v < |m| && visited[v] && v != source ==>
         && 0 <= parent[v] < |m| && visited[parent[v]]
         && m[parent[v]][v] > 0 && order[parent[v]] < order[v]
  }

  /** The parent links from v back to the source, read forwards: a path
      whose vertices are discovered in increasing order, so no vertex
      repeats. */
  ghost function Chain(m: Matrix, source: nat, visited: seq<bool>, parent: seq<int>, order: seq<nat>, v: nat): (p: seq<nat>)
    requires Square(m) && Tree(m, source, visited, parent, order) && v < |m| && visited[v]
    ensures IsPath(m, p, source, v)
    ensures forall s, t :: 0 <= s < t < |p| ==> order[p[s]] < order[p[t]]
    ensures forall k :: 1 <= k < |p| ==> parent[p[k]] == p[k - 1] as int
    decreases order[v]
  {
    if v == source then [v]
    else
      var q := Chain(m, source, visited, parent, order, parent[v] as nat);
      q + [v]
  }

  /** Every visited vertex has all its positive neighbours visited. */
  ghost predicate Closed(m: Matrix, visited: seq<bool>, u: nat)
    requires Square(m) && |visited| == |m| && u < |m|
  {
    forall w :: 0 <= w < |m| && m[u][w] > 0 ==> visited[w]
  }

  /** When every visited vertex is closed, a path from a visited vertex
      reaches only visited vertices. */
  lemma {:induction false} ClosedReach(m: Matrix, visited: seq<bool>, p: seq<nat>, a: nat, b: nat)
    requires Square(m) && |visited| == |m| && IsPath(m, p, a, b) && visited[a]
    requires forall u :: 0 <= u < |m| && visited[u] ==> Closed(m, visited, u)
    ensures visited[b]
    decreases |p|
  {
    if |p| > 1 {
      var q := p[..|p| - 1];
      ClosedReach(m, visited, q, a, q[|q| - 1]);
      assert m[p[|p| - 2]][p[|p| - 1]] > 0;
    }
  }

  /** The number of vertices not yet visited. */
  function Unvisited(visited: seq<bool>): nat
  {
    if |visited| == 0 then 0 else (if visited[0] then 0 else 1) + Unvisited(visited[1..])
  }

  lemma {:induction false} VisitOne(visited: seq<bool>, v: nat)
    requires v < |visited| && !visited[v]
    ensures Unvisited(visited[v := true]) == Unvisited(visited) - 1
  {
    if v > 0 {
      assert visited[v := true][1..] == visited[1..][v - 1 := true];
      VisitOne(visited[1..], v - 1);
    }
  }

  /** Visiting one more vertex, and queueing it, keeps every expanded
      vertex closed. */
  lemma VisitKeepsClosed(m: Matrix, visited: seq<bool>, v: nat, u: nat, queue: seq<nat>)
    requires Square(m) && |visited| == |m| && v < |m|
    requires forall w :: 0 <= w < |m| && visited[w] && w != u && w !in queue ==> Closed(m, visited, w)
    ensures forall w :: 0 <= w < |m| && visited[v := true][w] && w != u && w !in queue + [v] ==>
              Closed(m, visited[v := true], w)
  {
  }

  /** A finished search, with every visited vertex closed, has visited
      exactly the vertices reachable from the source. */
  lemma SearchExact(m: Matrix, source: nat, visited: seq<bool>, parent: seq<int>, order: seq<nat>)
    requires Square(m) && Tree(m, source, visited, parent, order)
    requires forall u :: 0 <= u < |m| && visited[u] ==> Closed(m, visited, u)
    ensures forall v :: 0 <= v < |m| ==> (visited[v] <==> Reach(m, source, v))
  {
    forall v | 0 <= v < |m|
      ensures visited[v] <==> Reach(m, source, v)
    {
      if visited[v] {
        var p := Chain(m, source, visited, parent, order, v);
      }
      if Reach(m, source, v) {
        var p :| IsPath(m, p, source, v);
        ClosedReach(m, visited, p, source, v);
      }
    }
  }

  /** Visiting v from the visited vertex u, last in discovery order, keeps
      the search tree. */
  lemma VisitKeepsTree(m: Matrix, source: nat, visited: seq<bool>, parent: seq<int>, order: seq<nat>, clock: nat, u: nat, v: nat)
    requires Square(m) && Tree(m, source, visited, parent, order) && u < |m| && v < |m|
    requires visited[u] && !visited[v] && m[u][v] > 0
    requires forall w :: 0 <= w < |m| ==> order[w] < clock
    ensures Tree(m, source, visited[v := true], parent[v := u], order[v := clock])
  {
  }

  /** The inner loop of `BFS` for the vertex u taken from the queue: every
      unvisited vertex joined to u by an entry greater than zero is visited,
      given u as parent and queued. Afterwards u is closed. */
  method Expand(m: Matrix, source: nat, u: nat, visited: seq<bool>, parent: seq<int>, queue: seq<nat>,
                ghost order: seq<nat>, ghost clock: nat)
    returns (visited': seq<bool>, parent': seq<int>, queue': seq<nat>, ghost order': seq<nat>, ghost clock': nat)
    requires Square(m) && u < |m| && Tree(m, source, visited, parent, order) && visited[u]
    requires forall w :: 0 <= w < |m| ==> order[w] < clock
    requires forall k :: 0 <= k < |queue| ==> queue[k] < |m| && visited[queue[k]]
    requires forall w :: 0 <= w < |m| && visited[w] && w != u && w !in queue ==> Closed(m, visited, w)
    ensures Tree(m, source, visited', parent', order')
    ensures forall w :: 0 <= w < |m| ==> order'[w] < clock'
    ensures forall k :: 0 <= k < |queue'| ==> queue'[k] < |m| && visited'[queue'[k]]
    ensures forall w :: 0 <= w < |m| && visited'[w] && w !in queue' ==> Closed(m, visited', w)
    ensures (visited' == visited && queue' == queue) || Unvisited(visited') < Unvisited(visited)
  {
    var n := |m|;
    visited', parent', queue', order', clock' := visited, parent, queue, order, clock;
    var v: nat := 0;
    while v < n
      invariant v <= n && |visited'| == n
      invariant ExpandInv(m, source, u, visited, queue, visited', parent', queue', order', clock')
      invariant SeenUpTo(m, u, visited', v)
    {
      if !visited'[v] && m[u][v] > 0 {
        ExpandVisit(m, source, u, visited, queue, v, visited', parent', queue', order', clock');
        SeenVisit(m, u, visited', v);
        queue' := queue' + [v];
        visited' := visited'[v := true];
        parent' := parent'[v := u];
        order' := order'[v := clock'];
        clock' := clock' + 1;
      } else {
        SeenSkip(m, u, visited', v);
      }
      v := v + 1;
    }
    ExpandDone(m, source, u, visited, queue, visited', parent', queue', order', clock');
  }

  /** What the inner loop of `BFS` keeps while it looks at the vertices
      from u: the search tree, the discovery clock, a queue of visited
      vertices, the old marks, every expanded vertex other than u closed,
      and progress unless nothing changed. */
  ghost predicate ExpandInv(m: Matrix, source: nat, u: nat, visited: seq<bool>, queue: seq<nat>,
                            visited': seq<bool>, parent': seq<int>, queue': seq<nat>, order': seq<nat>, clock': nat)
    requires Square(m) && u < |m|
  {
    && |visited| == |m| && visited[u]
    && Tree(m, source, visited', parent', order')
    && (forall w :: 0 <= w < |m| ==> order'[w] < clock')
    && (forall k :: 0 <= k < |queue'| ==> queue'[k] < |m| && visited'[queue'[k]])
    && (forall w :: 0 <= w < |m| && visited[w] ==> visited'[w])
    && (forall w :: 0 <= w < |m| && visited'[w] && w != u && w !in queue' ==> Closed(m, visited', w))
    && ((visited' == visited && queue' == queue) || Unvisited(visited') < Unvisited(visited))
  }

  /** Visiting and queueing the unvisited neighbour v keeps the invariant. */
  lemma ExpandVisit(m: Matrix, source: nat, u: nat, visited: seq<bool>, queue: seq<nat>, v: nat,
                    vis: seq<bool>, par: seq<int>, q: seq<nat>, ord: seq<nat>, clk: nat)
    requires Square(m) && u < |m| && v < |m|
    requires ExpandInv(m, source, u, visited, queue, vis, par, q, ord, clk)
    requires !vis[v] && m[u][v] > 0
    ensures ExpandInv(m, source, u, visited, queue, vis[v := true], par[v := u], q + [v], ord[v := clk], clk + 1)
  {
    VisitOne(vis, v);
    VisitKeepsClosed(m, vis, v, u, q);
    VisitKeepsTree(m, source, vis, par, ord, clk, u, v);
    VisitKeepsQueue(|m|, vis, q, v);
    VisitKeepsClock(|m|, ord, clk, v, ord[v := clk]);
    VisitKeepsMarks(|m|, visited, vis, v);
  }

  /** The queue with v appended still holds only marked vertices. */
  lemma VisitKeepsQueue(n: nat, vis: seq<bool>, q: seq<nat>, v: nat)
    requires |vis| == n && v < n
    requires forall k :: 0 <= k < |q| ==> q[k] < n && vis[q[k]]
    ensures forall k :: 0 <= k < |q + [v]| ==> (q + [v])[k] < n && vis[v := true][(q + [v])[k]]
  {
  }

  /** Stamping v with the clock and advancing it keeps every stamp behind
      the clock. */
  lemma VisitKeepsClock(n: nat, ord: seq<nat>, clk: nat, v: nat, stamped: seq<nat>)
    requires |ord| == n && v < n && stamped == ord[v := clk]
    requires forall w :: 0 <= w < n ==> ord[w] < clk
    ensures forall w :: 0 <= w < n ==> stamped[w] < clk + 1
  {
  }

  /** Marking v keeps the marks the expansion started from. */
  lemma VisitKeepsMarks(n: nat, visited: seq<bool>, vis: seq<bool>, v: nat)
    requires |visited| == n && |vis| == n && v < n
    requires forall w :: 0 <= w < n && visited[w] ==> vis[w]
    ensures forall w :: 0 <= w < n && visited[w] ==> vis[v := true][w]
  {
  }

  /** Every positive neighbour of u below v is marked. */
  ghost predicate SeenUpTo(m: Matrix, u: nat, vis: seq<bool>, v: nat)
    requires Square(m) && u < |m| && |vis| == |m| && v <= |m|
  {
    forall w :: 0 <= w < v && m[u][w] > 0 ==> vis[w]
  }

  /** Marking v extends `SeenUpTo` past v. */
  lemma SeenVisit(m: Matrix, u: nat, vis: seq<bool>, v: nat)
    requires Square(m) && u < |m| && |vis| == |m| && v < |m|
    requires SeenUpTo(m, u, vis, v)
    ensures SeenUpTo(m, u, vis[v := true], v + 1)
  {
  }

  /** A marked v or a non-positive entry extends `SeenUpTo` past v. */
  lemma SeenSkip(m: Matrix, u: nat, vis: seq<bool>, v: nat)
    requires Square(m) && u < |m| && |vis| == |m| && v < |m|
    requires SeenUpTo(m, u, vis, v) && (vis[v] || m[u][v] <= 0)
    ensures SeenUpTo(m, u, vis, v + 1)
  {
  }

  /** Once every vertex has been looked at, u is closed too. */
  lemma ExpandDone(m: Matrix, source: nat, u: nat, visited: seq<bool>, queue: seq<nat>,
                   vis: seq<bool>, par: seq<int>, q: seq<nat>, ord: seq<nat>, clk: nat)
    requires Square(m) && u < |m|
    requires ExpandInv(m, source, u, visited, queue, vis, par, q, ord, clk)
    requires |vis| == |m| && SeenUpTo(m, u, vis, |m|)
    ensures forall w :: 0 <= w < |m| && vis[w] && w !in q ==> Closed(m, vis, w)
  {
    assert Closed(m, vis, u);
  }

  /** `BFS`: the queue search from the source over entries greater than
      zero. It visits exactly the vertices reachable from the source,
      records for each a parent on a path back to it, and answers whether
      the sink was visited. Parents of unvisited vertices keep whatever the
      previous search left. */
  method Bfs(m: Matrix, source: nat, sink: nat, parentIn: seq<int>)
    returns (found: bool, parent: seq<int>, visited: seq<bool>, ghost order: seq<nat>)
    requires Square(m) && source < |m| && sink < |m| && |parentIn| == |m|
    ensures Tree(m, source, visited, parent, order)
    ensures found == visited[sink]
    ensures forall v :: 0 <= v < |m| ==> (visited[v] <==> Reach(m, source, v))
  {
    var n := |m|;
    visited := seq(n, v => v == source);
    parent := parentIn;
    order := seq(n, _ => 0);
    ghost var clock: nat := 1;
    var queue: seq<nat> := [source];
    while |queue| > 0
      invariant |visited| == n && Tree(m, source, visited, parent, order)
      invariant forall v :: 0 <= v < n ==> order[v] < clock
      invariant forall k :: 0 <= k < |queue| ==> queue[k] < n && visited[queue[k]]
      invariant forall u :: 0 <= u < n && visited[u] && u !in queue ==> Closed(m, visited, u)
      decreases Unvisited(visited), |queue|
    {
      var u := queue[0];
      queue := queue[1..];
      visited, parent, queue, order, clock := Expand(m, source, u, visited, parent, queue, order, clock);
    }
    found := visited[sink];
    SearchExact(m, source, visited, parent, order);
  }

  // Augmenting along the chain to the sink.

  /** `INT_MAX`, the starting value of the bottleneck. */
  const IntMax := 2147483647

  /** A chain visits no vertex twice. */
  lemma ChainDistinct(m: Matrix, source: nat, visited: seq<bool>, parent: seq<int>, order: seq<nat>, v: nat)
    requires Square(m) && Tree(m, source, visited, parent, order) && v < |m| && visited[v]
    ensures var p := Chain(m, source, visited, parent, order, v);
            forall s, t :: 0 <= s < t < |p| ==> p[s] != p[t]
  {
    var p := Chain(m, source, visited, parent, order, v);
    forall s, t | 0 <= s < t < |p|
      ensures p[s] != p[t]
    {
      assert order[p[s]] < order[p[t]];
    }
  }

  /** A path from the source to the sink that repeats no vertex and
      follows the parent links. */
  ghost predicate ParentPath(m: Matrix, parent: seq<int>, p: seq<nat>, source: nat, sink: nat)
    requires Square(m)
  {
    && IsPath(m, p, source, sink) && |parent| == |m|
    && (forall s, t :: 0 <= s < t < |p| ==> p[s] != p[t])
    && (forall k :: 1 <= k < |p| ==> parent[p[k]] == p[k - 1] as int)
  }

  /** The chain of a search tree is such a path. */
  lemma ChainParentPath(m: Matrix, source: nat, visited: seq<bool>, parent: seq<int>, order: seq<nat>, sink: nat)
    requires Square(m) && Tree(m, source, visited, parent, order) && sink < |m| && visited[sink]
    ensures ParentPath(m, parent, Chain(m, source, visited, parent, order, sink), source, sink)
  {
    ChainDistinct(m, source, visited, parent, order, sink);
  }

  /** The lines of `max_flow` that walk the parent links from the sink
      and take the smallest entry on the way, starting from `INT_MAX`: the
      bottleneck is positive, fits every edge of the path, and is either
      `INT_MAX` or the entry of one of those edges. */
  method PathFlow(m: Matrix, source: nat, sink: nat, parent: seq<int>, ghost p: seq<nat>) returns (flow: int)
    requires Square(m) && ParentPath(m, parent, p, source, sink)
    ensures 0 < flow <= IntMax
    ensures forall k :: 0 <= k < |p| - 1 ==> flow <= m[p[k]][p[k + 1]]
    ensures flow == IntMax || exists k :: 0 <= k < |p| - 1 && flow == m[p[k]][p[k + 1]]
  {
    flow := IntMax;
    var u := sink;
    ghost var i := |p| - 1;
    while u != source
      invariant 0 <= i < |p| && u == p[i]
      invariant 0 < flow <= IntMax
      invariant forall k :: i <= k < |p| - 1 ==> flow <= m[p[k]][p[k + 1]]
      invariant flow == IntMax || exists k :: i <= k < |p| - 1 && flow == m[p[k]][p[k + 1]]
      decreases i
    {
      assert i > 0;
      assert parent[p[i]] == p[i - 1] as int;
      var v := parent[u] as nat;
      flow := if m[v][u] < flow then m[v][u] else flow;
      u := v;
      i := i - 1;
    }
  }

  /** The vertices of p after position i. */
  ghost function After(p: seq<nat>, i: int): set<nat>
  {
    set k | 0 <= k < |p| && i < k :: p[k]
  }

  /** Each entry of r is the one of m, less the flow if it is the edge into
      a vertex of done from its parent, plus the flow if it is the reverse
      edge. */
  ghost predicate Pushed(m: Matrix, r: Matrix, parent: seq<int>, done: set<nat>, flow: int)
    requires Square(m) && Square(r) && |r| == |m| && |parent| == |m|
  {
    forall a, b :: 0 <= a < |m| && 0 <= b < |m| ==>
      r[a][b] == m[a][b] - (if b in done && parent[b] == a then flow else 0)
                         + (if a in done && parent[a] == b then flow else 0)
  }

  /** One step of the augmenting loop: the edge from u to v loses the flow
      and the edge back gains it. */
  lemma PushStep(m: Matrix, r: Matrix, parent: seq<int>, done: set<nat>, flow: int, u: nat, v: nat, r2: Matrix)
    requires Square(m) && Square(r) && |r| == |m| && |parent| == |m| && u < |m| && v < |m|
    requires Pushed(m, r, parent, done, flow)
    requires u != v && u !in done && v !in done && parent[v] == u
    requires var r1 := r[u := r[u][v := r[u][v] - flow]];
             r2 == r1[v := r1[v][u := r1[v][u] + flow]]
    ensures Square(r2) && |r2| == |m| && Pushed(m, r2, parent, done + {v}, flow)
  {
  }

  /** The lines of `max_flow` that walk the parent links from the sink
      again, taking the flow off each edge of the chain and adding it to
      the reverse edge; nothing else changes. */
  method Augment(m: Matrix, source: nat, sink: nat, parent: seq<int>, flow: int, ghost p: seq<nat>)
    returns (r: Matrix)
    requires Square(m) && ParentPath(m, parent, p, source, sink)
    ensures Square(r) && |r| == |m|
    ensures Pushed(m, r, parent, After(p, 0), flow)
  {
    r := m;
    var u := sink;
    ghost var i := |p| - 1;
    ghost var done: set<nat> := {};
    assert After(p, i) == {};
    while u != source
      invariant 0 <= i < |p| && u == p[i]
      invariant Square(r) && |r| == |m|
      invariant done == After(p, i)
      invariant Pushed(m, r, parent, done, flow)
      decreases i
    {
      assert i > 0;
      assert parent[p[i]] == p[i - 1] as int;
      var v := parent[u] as nat;
      assert u !in done && v !in done by {
        assert forall k :: i < k < |p| ==> p[k] != p[i] && p[k] != p[i - 1];
      }
      var r1 := r[v := r[v][u := r[v][u] - flow]];
      var r2 := r1[u := r1[u][v := r1[u][v] + flow]];
      PushStep(m, r, parent, done, flow, v, u, r2);
      r := r2;
      assert After(p, i - 1) == After(p, i) + {u};
      done := done + {u};
      u := v;
      i := i - 1;
    }
  }

  /** The sum of a row: the residual capacity out of a vertex. */
  function RowSum(row: seq<int>): int
  {
    if |row| == 0 then 0 else row[0] + RowSum(row[1..])
  }

  lemma {:induction false} RowSumUpdate(row: seq<int>, k: nat, x: int)
    requires k < |row|
    ensures RowSum(row[k := x]) == RowSum(row) - row[k] + x
  {
    if k > 0 {
      assert row[k := x][1..] == row[1..][k - 1 := x];
      RowSumUpdate(row[1..], k - 1, x);
    }
  }

  lemma {:induction false} RowSumNonNegative(row: seq<int>)
    requires forall k :: 0 <= k < |row| ==> row[k] >= 0
    ensures RowSum(row) >= 0
  {
    if |row| > 0 {
      RowSumNonNegative(row[1..]);
    }
  }

  /** Pushing a bottleneck flow along a path without repeated vertices
      leaves no entry negative. */
  lemma PushedNonNegative(m: Matrix, r: Matrix, parent: seq<int>, p: seq<nat>, flow: int, source: nat, sink: nat)
    requires Square(m) && Square(r) && |r| == |m| && NonNegative(m)
    requires ParentPath(m, parent, p, source, sink)
    requires 0 < flow && forall k :: 0 <= k < |p| - 1 ==> flow <= m[p[k]][p[k + 1]]
    requires Pushed(m, r, parent, After(p, 0), flow)
    ensures NonNegative(r)
  {
    forall a, b | 0 <= a < |m| && 0 <= b < |m|
      ensures r[a][b] >= 0
    {
      if b in After(p, 0) && parent[b] == a {
        var k :| 0 < k < |p| && p[k] == b;
        assert m[p[k - 1]][p[k]] >= flow;
      }
    }
  }

  /** Pushing keeps the sum of each pair of opposite entries. */
  lemma PushedPairs(m: Matrix, r: Matrix, parent: seq<int>, done: set<nat>, flow: int)
    requires Square(m) && Square(r) && |r| == |m| && |parent| == |m|
    requires Pushed(m, r, parent, done, flow)
    ensures forall a, b :: 0 <= a < |m| && 0 <= b < |m| ==> r[a][b] + r[b][a] == m[a][b] + m[b][a]
  {
    forall a, b | 0 <= a < |m| && 0 <= b < |m|
      ensures r[a][b] + r[b][a] == m[a][b] + m[b][a]
    {
      assert r[a][b] == m[a][b] - (if b in done && parent[b] == a then flow else 0)
                                + (if a in done && parent[a] == b then flow else 0);
      assert r[b][a] == m[b][a] - (if a in done && parent[a] == b then flow else 0)
                                + (if b in done && parent[b] == a then flow else 0);
    }
  }

  /** Pushing along a path from the source that repeats no vertex lowers
      the residual capacity out of the source by exactly the flow. */
  lemma PushedSourceRow(m: Matrix, r: Matrix, parent: seq<int>, p: seq<nat>, flow: int, source: nat, sink: nat)
    requires Square(m) && Square(r) && |r| == |m|
    requires ParentPath(m, parent, p, source, sink) && source != sink
    requires Pushed(m, r, parent, After(p, 0), flow)
    ensures RowSum(r[source]) == RowSum(m[source]) - flow
  {
    assert source !in After(p, 0);
    var first := p[1];
    forall b | 0 <= b < |m|
      ensures r[source][b] == m[source][first := m[source][first] - flow][b]
    {
      if b in After(p, 0) && parent[b] == source {
        var k :| 0 < k < |p| && p[k] == b;
        assert p[k - 1] == p[0];
      }
    }
    assert r[source] == m[source][first := m[source][first] - flow];
    RowSumUpdate(m[source], first, m[source][first] - flow);
  }

  /** The sum of the bottlenecks pushed, in order. */
  function Sum(flows: seq<int>): int
  {
    if |flows| == 0 then 0 else Sum(flows[..|flows| - 1]) + flows[|flows| - 1]
  }

  /** One round of the loop of `max_flow` after a successful search: the
      bottleneck of the path to the sink is positive, and pushing it keeps
      every entry non-negative, keeps the sum of each pair of opposite
      entries, and lowers the capacity out of the source by exactly the
      bottleneck. */
  method Round(adj: Matrix, source: nat, sink: nat, parent: seq<int>, ghost visited: seq<bool>, ghost order: seq<nat>)
    returns (bottleneck: int, next: Matrix)
    requires Square(adj) && NonNegative(adj) && Tree(adj, source, visited, parent, order)
    requires sink < |adj| && visited[sink] && source != sink
    ensures 0 < bottleneck
    ensures Square(next) && |next| == |adj| && NonNegative(next)
    ensures forall a, b :: 0 <= a < |adj| && 0 <= b < |adj| ==> next[a][b] + next[b][a] == adj[a][b] + adj[b][a]
    ensures RowSum(next[source]) == RowSum(adj[source]) - bottleneck && RowSum(next[source]) >= 0
  {
    ghost var p := Chain(adj, source, visited, parent, order, sink);
    ChainParentPath(adj, source, visited, parent, order, sink);
    bottleneck := PathFlow(adj, source, sink, parent, p);
    next := Augment(adj, source, sink, parent, bottleneck, p);
    PushedNonNegative(adj, next, parent, p, bottleneck, source, sink);
    PushedPairs(adj, next, parent, After(p, 0), bottleneck);
    PushedSourceRow(adj, next, parent, p, bottleneck, source, sink);
    RowSumNonNegative(next[source]);
  }

  /** `max_flow`: search, push the bottleneck, search again with the parent
      links left from the previous search, until the sink is out of reach.
      The result is the sum of the positive bottlenecks pushed; it is what
      the source lost of its capacity out, so it lies between zero and that
      capacity; every residual entry stays non-negative, each pair of
      opposite entries keeps its sum, and at the end no path of positive
      residual capacity leads to the sink. */
  method MaxFlow(cap: Matrix, source: nat, sink: nat) returns (flow: int, ghost residual: Matrix, ghost pushed: seq<int>)
    requires Square(cap) && source < |cap| && sink < |cap| && source != sink && NonNegative(cap)
    ensures Square(residual) && |residual| == |cap| && NonNegative(residual)
    ensures forall a, b :: 0 <= a < |cap| && 0 <= b < |cap| ==> residual[a][b] + residual[b][a] == cap[a][b] + cap[b][a]
    ensures flow == Sum(pushed) && forall k :: 0 <= k < |pushed| ==> pushed[k] > 0
    ensures flow == RowSum(cap[source]) - RowSum(residual[source])
    ensures 0 <= flow <= RowSum(cap[source])
    ensures !Reach(residual, source, sink)
  {
    var adj := cap;
    var parent := seq(|cap|, _ => -1);
    flow := 0;
    pushed := [];
    RowSumNonNegative(cap[source]);
    var found, visited;
    ghost var order;
    found, parent, visited, order := Bfs(adj, source, sink, parent);
    while found
      invariant Square(adj) && |adj| == |cap| && NonNegative(adj)
      invariant forall a, b :: 0 <= a < |cap| && 0 <= b < |cap| ==> adj[a][b] + adj[b][a] == cap[a][b] + cap[b][a]
      invariant flow == Sum(pushed) && forall k :: 0 <= k < |pushed| ==> pushed[k] > 0
      invariant flow == RowSum(cap[source]) - RowSum(adj[source]) && RowSum(adj[source]) >= 0
      invariant Tree(adj, source, visited, parent, order) && found == visited[sink]
      invariant forall v :: 0 <= v < |adj| ==> (visited[v] <==> Reach(adj, source, v))
      decreases RowSum(adj[source])
    {
      var bottleneck, next := Round(adj, source, sink, parent, visited, order);
      flow := flow + bottleneck;
      pushed := pushed + [bottleneck];
      adj := next;
      found, parent, visited, order := Bfs(adj, source, sink, parent);
    }
    residual := adj;
  }

  // The T-shirt network of `main`: source 0, the six sizes 1..6, one
  // vertex per volunteer from 7, and the sink last.

  /** `size_map[label]`: XXL is 1 down to XS at 6. Any other label reads
      as 0, the source, because `operator[]` inserts it with a zero value. */
  function SizeOf(name: string): (size: nat)
    ensures size <= 6
    ensures size == 0 <==> name !in {"XXL", "XL", "L", "M", "S", "XS"}
  {
    if name == "XXL" then 1
    else if name == "XL" then 2
    else if name == "L" then 3
    else if name == "M" then 4
    else if name == "S" then 5
    else if name == "XS" then 6
    else 0
  }

  /** The two sizes a volunteer would wear. */
  datatype Volunteer = Volunteer(first: string, second: string)

  /** C++ integer division by 6, which truncates toward zero. */
  function Div6(x: int): (q: int)
    ensures x >= 0 ==> 0 <= 6 * q <= x < 6 * q + 6
    ensures x < 0 ==> 6 * q - 6 < x <= 6 * q <= 0
  {
    if x >= 0 then x / 6 else -((-x) / 6)
  }

  /** The first loop of `main`, for the first k sizes: the source gets
      capacity num_shirts/6 to each. */
  function SourceEdges(m: Matrix, shirts: int, k: nat): (r: Matrix)
    requires Square(m) && |m| >= 7 && k <= 6
    ensures Square(r) && |r| == |m|
    ensures forall u, v :: 0 <= u < |m| && 0 <= v < |m| ==>
              r[u][v] == if u == 0 && 1 <= v <= k then Div6(shirts) else m[u][v]
  {
    if k == 0 then m else AddEdge(SourceEdges(m, shirts, k - 1), 0, k, Div6(shirts))
  }

  /** The second loop, for the first k volunteers: capacity 1 from each of
      the volunteer's two sizes to the volunteer. */
  function VolunteerEdges(m: Matrix, vols: seq<Volunteer>, k: nat): (r: Matrix)
    requires Square(m) && |m| >= 7 + |vols| && k <= |vols|
    ensures Square(r) && |r| == |m|
    ensures forall u, v :: 0 <= u < |m| && 0 <= v < |m| ==>
              r[u][v] == if 7 <= v < 7 + k && (u == SizeOf(vols[v - 7].first) || u == SizeOf(vols[v - 7].second))
                         then 1 else m[u][v]
  {
    if k == 0 then m
    else
      var g := VolunteerEdges(m, vols, k - 1);
      AddEdge(AddEdge(g, SizeOf(vols[k - 1].first), k + 6, 1), SizeOf(vols[k - 1].second), k + 6, 1)
  }

  /** The third loop, for the first k volunteers: capacity 1 from the
      volunteer to the sink. */
  function SinkEdges(m: Matrix, k: nat): (r: Matrix)
    requires Square(m) && |m| >= 8 + k
    ensures Square(r) && |r| == |m|
    ensures forall u, v :: 0 <= u < |m| && 0 <= v < |m| ==>
              r[u][v] == if 7 <= u < 7 + k && v == |m| - 1 then 1 else m[u][v]
  {
    if k == 0 then m else AddEdge(SinkEdges(m, k - 1), k + 6, |m| - 1, 1)
  }

  /** The capacities of the network, stated edge by edge. */
  function Capacity(shirts: int, vols: seq<Volunteer>, u: nat, v: nat): int
  {
    var sink := 7 + |vols|;
    if 7 <= u < sink && v == sink then 1
    else if 7 <= v < sink && (u == SizeOf(vols[v - 7].first) || u == SizeOf(vols[v - 7].second)) then 1
    else if u == 0 && 1 <= v <= 6 then Div6(shirts)
    else 0
  }

  /** The graph `main` builds: 6 + num_volunteers + 2 vertices, and the
      three loops applied in order to the zero matrix. It has exactly the
      capacities of `Capacity`: num_shirts/6 from the source to each size,
      1 from each size a volunteer names to that volunteer, 1 from each
      volunteer to the sink, and nothing else. */
  function Network(shirts: int, vols: seq<Volunteer>): (m: Matrix)
    ensures Square(m) && |m| == 8 + |vols|
    ensures forall u, v :: 0 <= u < |m| && 0 <= v < |m| ==> m[u][v] == Capacity(shirts, vols, u, v)
  {
    var size := 8 + |vols|;
    SinkEdges(VolunteerEdges(SourceEdges(NewGraph(size), shirts, 6), vols, |vols|), |vols|)
  }

  /** With a non-negative number of shirts no capacity is negative. */
  lemma NetworkNonNegative(shirts: int, vols: seq<Volunteer>)
    requires shirts >= 0
    ensures NonNegative(Network(shirts, vols))
  {
  }

  /** When every label is a known size, the capacity out of the source is
      6 * (num_shirts/6). */
  lemma NetworkSourceCapacity(shirts: int, vols: seq<Volunteer>)
    requires forall k :: 0 <= k < |vols| ==> SizeOf(vols[k].first) != 0 && SizeOf(vols[k].second) != 0
    ensures RowSum(Network(shirts, vols)[0]) == 6 * Div6(shirts)
  {
    var m := Network(shirts, vols);
    var q := Div6(shirts);
    var row := [0] + ConstRow(6, q) + ConstRow(|vols| + 1, 0);
    assert m[0] == row;
    ConstRowSum(6, q);
    ConstRowSum(|vols| + 1, 0);
    RowSumAppend([0] + ConstRow(6, q), ConstRow(|vols| + 1, 0));
    RowSumAppend([0], ConstRow(6, q));
  }

  function ConstRow(n: nat, x: int): (row: seq<int>)
    ensures |row| == n && forall k :: 0 <= k < n ==> row[k] == x
  {
    seq(n, _ => x)
  }

  lemma {:induction false} ConstRowSum(n: nat, x: int)
    ensures RowSum(ConstRow(n, x)) == n * x
  {
    if n > 0 {
      assert ConstRow(n, x)[1..] == ConstRow(n - 1, x);
      ConstRowSum(n - 1, x);
    }
  }

  lemma {:induction false} RowSumAppend(a: seq<int>, b: seq<int>)
    ensures RowSum(a + b) == RowSum(a) + RowSum(b)
  {
    if |a| > 0 {
      assert (a + b)[1..] == a[1..] + b;
      RowSumAppend(a[1..], b);
    } else {
      assert a + b == b;
    }
  }

  /** One test case of `main`: YES exactly when the maximum flow from the
      source to the sink equals the number of volunteers. The flow never
      exceeds the capacity out of the source, so with known labels a YES
      needs at least as many shirts, in whole sixes, as volunteers. */
  method Serve(shirts: int, vols: seq<Volunteer>) returns (yes: bool, flow: int)
    requires shirts >= 0
    ensures yes <==> flow == |vols|
    ensures 0 <= flow <= RowSum(Network(shirts, vols)[0])
    ensures (forall k :: 0 <= k < |vols| ==> SizeOf(vols[k].first) != 0 && SizeOf(vols[k].second) != 0) ==>
              flow <= 6 * (shirts / 6) && (yes ==> |vols| <= 6 * (shirts / 6))
  {
    var graph := Network(shirts, vols);
    NetworkNonNegative(shirts, vols);
    ghost var residual, pushed;
    flow, residual, pushed := MaxFlow(graph, 0, 7 + |vols|);
    yes := flow == |vols|;
    if forall k :: 0 <= k < |vols| ==> SizeOf(vols[k].first) != 0 && SizeOf(vols[k].second) != 0 {
      NetworkSourceCapacity(shirts, vols);
    }
  }
}
