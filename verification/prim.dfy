/** `primMST(start)` of trabalhos/uva_11710_expensive_subway/Graph.cpp: a
    min-heap of (edge, source) pairs seeded with the start vertex's list; a
    popped edge is kept when one of its endpoints is not yet in the tree,
    and then the destination's list is pushed. */
module Prim {
  import opened Graphs
  import opened Kruskal

  /** The index of a smallest heap element under the order of std::pair:
      what `minHeap.top()` returns. */
  function MinIndex(heap: seq<Candidate>): (i: nat)
    requires |heap| >= 1
    ensures i < |heap|
    ensures forall k :: 0 <= k < |heap| ==> Before(heap[i], heap[k])
  {
    if |heap| == 1 then 0
    else
      var j := MinIndex(heap[1..]);
      assert forall k :: 1 <= k < |heap| ==> heap[k] == heap[1..][k - 1];
      if Before(heap[0], heap[1..][j]) then 0 else j + 1
  }

  /** Removes the element at i: `minHeap.pop()`. */
  function Remove(heap: seq<Candidate>, i: nat): (r: seq<Candidate>)
    requires i < |heap|
    ensures |r| == |heap| - 1
    ensures multiset(r) + multiset{heap[i]} == multiset(heap)
  {
    assert heap == heap[..i] + [heap[i]] + heap[i + 1..];
    heap[..i] + heap[i + 1..]
  }

  /** The pushing loop: every entry of v's list, tagged with v. */
  method PushList(g: Graph, v: nat, heap: seq<Candidate>) returns (r: seq<Candidate>)
    requires v < Size(g)
    ensures |r| == |heap| + |g.adj[v]| && r[..|heap|] == heap
    ensures forall c :: c in heap ==> c in r
    ensures forall e :: e in g.adj[v] ==> Candidate(e.weight, e.dest, v) in r
    ensures forall c :: c in r ==> c in heap || (c.src == v && Edge(c.weight, c.dest) in g.adj[v])
  {
    var list := g.adj[v];
    var tagged := seq(|list|, j requires 0 <= j < |list| => Candidate(list[j].weight, list[j].dest, v));
    r := heap;
    var i := 0;
    while i < |list|
      invariant 0 <= i <= |list|
      invariant r == heap + tagged[..i]
    {
      assert tagged[..i + 1] == tagged[..i] + [tagged[i]];
      r := r + [tagged[i]];
      i := i + 1;
    }
    assert tagged[..|list|] == tagged;
    forall c | c in heap
      ensures c in r
    {
      var j :| 0 <= j < |heap| && heap[j] == c;
      assert r[j] == c;
    }
    forall e | e in list
      ensures Candidate(e.weight, e.dest, v) in r
    {
      var j :| 0 <= j < |list| && list[j] == e;
      assert r[|heap| + j] == tagged[j];
    }
    forall c | c in r
      ensures c in heap || (c.src == v && Edge(c.weight, c.dest) in list)
    {
      if c !in heap {
        var j :| 0 <= j < |r| && r[j] == c;
        assert c == tagged[j - |heap|];
        assert Edge(c.weight, c.dest) == list[j - |heap|];
      }
    }
  }

  /** The loop invariant. `expanded` holds the vertices whose lists were
      pushed: the start and every destination of an accepted edge. */
  ghost predicate PrimInv(g: Graph, start: nat, heap: seq<Candidate>, inMst: seq<bool>,
                          expanded: set<nat>, accepted: seq<Candidate>, mst: Graph)
    requires WellFormed(g) && start < Size(g)
  {
    && |inMst| == Size(g)
    && TreeOk(g, start, inMst, accepted, mst)
    && FrontierOk(g, start, heap, inMst, expanded)
  }

  /** The accepted edges are edges of g, at most as many as the marked
      vertices, and the tree reaches every marked vertex from the start. */
  ghost predicate TreeOk(g: Graph, start: nat, inMst: seq<bool>, accepted: seq<Candidate>, mst: Graph)
    requires WellFormed(g) && start < Size(g) && |inMst| == Size(g)
  {
    && InRange(Size(g), accepted)
    && mst == Tree(Size(g), accepted)
    && (forall k :: 0 <= k < |accepted| ==> Edge(accepted[k].weight, accepted[k].dest) in g.adj[accepted[k].src])
    && |accepted| <= Count(inMst)
    && (|accepted| == 0 ==> forall v :: 0 <= v < Size(g) ==> !inMst[v])
    && (|accepted| > 0 ==> inMst[start])
    && (forall v :: 0 <= v < Size(g) && inMst[v] ==> Reachable(mst, start, v))
  }

  /** The heap holds edges of expanded vertices, the marked vertices are
      expanded, and the start is expanded. */
  ghost predicate FrontierOk(g: Graph, start: nat, heap: seq<Candidate>, inMst: seq<bool>, expanded: set<nat>)
    requires WellFormed(g) && start < Size(g) && |inMst| == Size(g)
  {
    && start in expanded
    && (forall v :: v in expanded ==> v < Size(g) && (v == start || inMst[v]))
    && (forall v :: 0 <= v < Size(g) && inMst[v] ==> v in expanded)
    && (forall c :: c in heap ==> c.src in expanded && Edge(c.weight, c.dest) in g.adj[c.src])
    && Pending(g, heap, inMst, expanded)
  }

  /** Every entry of an expanded vertex is still in the heap or joins two
      tree vertices. */
  ghost predicate Pending(g: Graph, heap: seq<Candidate>, inMst: seq<bool>, expanded: set<nat>)
    requires WellFormed(g) && |inMst| == Size(g)
  {
    forall v, e :: v in expanded && v < Size(g) && e in g.adj[v] ==>
      Candidate(e.weight, e.dest, v) in heap || (inMst[v] && inMst[e.dest])
  }

  lemma CountFull(marks: seq<bool>, v: nat)
    requires v < |marks| && Count(marks) == |marks|
    ensures marks[v]
  {
    if !marks[v] {
      CountMark(marks, v);
    }
  }

  /** Marking both endpoints of an edge with an unmarked endpoint adds at
      least one vertex. */
  lemma CountMarkTwo(marks: seq<bool>, a: nat, b: nat)
    requires a < |marks| && b < |marks| && (!marks[a] || !marks[b])
    ensures Count(marks[a := true][b := true]) > Count(marks)
  {
    var m := marks[a := true];
    if !marks[a] {
      CountMark(marks, a);
    } else {
      assert m == marks;
    }
    if !m[b] {
      CountMark(m, b);
    } else {
      assert m[b := true] == m;
    }
  }

  /** A rejected edge joins two tree vertices; removing it keeps the
      invariant. */
  lemma RejectKeeps(g: Graph, start: nat, heap: seq<Candidate>, i: nat, inMst: seq<bool>,
                    expanded: set<nat>, accepted: seq<Candidate>, mst: Graph)
    requires WellFormed(g) && start < Size(g) && i < |heap|
    requires PrimInv(g, start, heap, inMst, expanded, accepted, mst)
    requires inMst[heap[i].src] && inMst[heap[i].dest]
    ensures PrimInv(g, start, Remove(heap, i), inMst, expanded, accepted, mst)
  {
    var r := Remove(heap, i);
    forall c | c in r
      ensures c in heap
    {
      assert c in multiset(r);
    }
    forall v, e | v in expanded && v < Size(g) && e in g.adj[v]
      ensures Candidate(e.weight, e.dest, v) in r || (inMst[v] && inMst[e.dest])
    {
      var c := Candidate(e.weight, e.dest, v);
      if c in heap && c != heap[i] {
        assert multiset(heap)[c] == multiset(r)[c];
      }
    }
  }

  /** An accepted edge starts at a vertex the tree already reaches from the
      start (or the start itself), so its destination is reached too. */
  lemma AcceptReaches(g: Graph, start: nat, heap: seq<Candidate>, inMst: seq<bool>,
                      expanded: set<nat>, accepted: seq<Candidate>, mst: Graph, c: Candidate)
    requires WellFormed(g) && start < Size(g)
    requires PrimInv(g, start, heap, inMst, expanded, accepted, mst)
    requires c in heap
    ensures c.src < Size(g) && c.dest < Size(g)
    ensures var next := AppendEdge(mst, c.src, Edge(c.weight, c.dest));
            forall v :: 0 <= v < Size(g) && inMst[c.src := true][c.dest := true][v] ==> Reachable(next, start, v)
  {
    var next := AppendEdge(mst, c.src, Edge(c.weight, c.dest));
    assert Edge(c.weight, c.dest) in g.adj[c.src];
    var marks := inMst[c.src := true][c.dest := true];
    AdjacentAfterAppend(mst, c.src, Edge(c.weight, c.dest));
    assert Reachable(next, start, c.src) by {
      if c.src == start {
        ReachableRefl(next, start);
      } else {
        ReachableAfterAppend(mst, c.src, Edge(c.weight, c.dest), start, c.src);
      }
    }
    ReachableStep(next, start, c.src, c.dest);
    forall v | 0 <= v < Size(g) && marks[v]
      ensures Reachable(next, start, v)
    {
      if v != c.src && v != c.dest {
        ReachableAfterAppend(mst, c.src, Edge(c.weight, c.dest), start, v);
      }
    }
  }

  /** Accepting an edge of g that leaves the tree, and marking both its
      ends, keeps the tree facts when the new tree reaches every mark. */
  lemma TreeOkAppend(g: Graph, start: nat, inMst: seq<bool>, marks: seq<bool>, accepted: seq<Candidate>,
                     c: Candidate, mst: Graph, next: Graph)
    requires WellFormed(g) && start < Size(g) && |inMst| == Size(g)
    requires TreeOk(g, start, inMst, accepted, mst)
    requires c.src < Size(g) && c.dest < Size(g) && Edge(c.weight, c.dest) in g.adj[c.src]
    requires marks == inMst[c.src := true][c.dest := true]
    requires next == AppendEdge(mst, c.src, Edge(c.weight, c.dest))
    requires forall v :: 0 <= v < Size(g) && marks[v] ==> Reachable(next, start, v)
    requires Count(marks) > Count(inMst)
    requires |accepted| == 0 ==> c.src == start
    ensures TreeOk(g, start, marks, accepted + [c], next)
  {
    TreeAppend(Size(g), accepted, c);
    EntriesOfGraphAppend(g, accepted, c, accepted + [c]);
  }

  /** Accepting the popped edge and pushing its destination's list keeps
      the invariant. */
  lemma AcceptKeeps(g: Graph, start: nat, heap: seq<Candidate>, i: nat, inMst: seq<bool>,
                    expanded: set<nat>, accepted: seq<Candidate>, mst: Graph, pushed: seq<Candidate>)
    requires WellFormed(g) && start < Size(g) && i < |heap|
    requires PrimInv(g, start, heap, inMst, expanded, accepted, mst)
    requires !inMst[heap[i].src] || !inMst[heap[i].dest]
    requires heap[i].dest < Size(g)
    requires forall e :: e in g.adj[heap[i].dest] ==> Candidate(e.weight, e.dest, heap[i].dest) in pushed
    requires forall c :: c in pushed ==> c in Remove(heap, i) || (c.src == heap[i].dest && Edge(c.weight, c.dest) in g.adj[heap[i].dest])
    requires forall c :: c in Remove(heap, i) ==> c in pushed
    ensures var c := heap[i];
            && c.src < Size(g)
            && PrimInv(g, start, pushed, inMst[c.src := true][c.dest := true], expanded + {c.dest},
                       accepted + [c], AppendEdge(mst, c.src, Edge(c.weight, c.dest)))
    ensures Count(inMst[heap[i].src := true][heap[i].dest := true]) > Count(inMst)
  {
    AcceptTree(g, start, heap, i, inMst, expanded, accepted, mst);
    AcceptFrontier(g, start, heap, i, inMst, expanded, pushed);
  }

  lemma AcceptTree(g: Graph, start: nat, heap: seq<Candidate>, i: nat, inMst: seq<bool>,
                   expanded: set<nat>, accepted: seq<Candidate>, mst: Graph)
    requires WellFormed(g) && start < Size(g) && i < |heap|
    requires PrimInv(g, start, heap, inMst, expanded, accepted, mst)
    requires !inMst[heap[i].src] || !inMst[heap[i].dest]
    ensures var c := heap[i];
            && c.src < Size(g) && c.dest < Size(g)
            && TreeOk(g, start, inMst[c.src := true][c.dest := true], accepted + [c], AppendEdge(mst, c.src, Edge(c.weight, c.dest)))
    ensures Count(inMst[heap[i].src := true][heap[i].dest := true]) > Count(inMst)
  {
    var c := heap[i];
    AcceptReaches(g, start, heap, inMst, expanded, accepted, mst, c);
    CountMarkTwo(inMst, c.src, c.dest);
    assert |accepted| == 0 ==> c.src == start;
    assert c in heap;
    TreeOkAppend(g, start, inMst, inMst[c.src := true][c.dest := true], accepted, c, mst,
                 AppendEdge(mst, c.src, Edge(c.weight, c.dest)));
  }

  /** Appending an edge of g to edges of g gives edges of g. */
  lemma EntriesOfGraphAppend(g: Graph, accepted: seq<Candidate>, c: Candidate, next: seq<Candidate>)
    requires InRange(Size(g), accepted) && c.src < Size(g) && next == accepted + [c]
    requires forall k :: 0 <= k < |accepted| ==> Edge(accepted[k].weight, accepted[k].dest) in g.adj[accepted[k].src]
    requires Edge(c.weight, c.dest) in g.adj[c.src]
    ensures forall k :: 0 <= k < |next| ==> next[k].src < Size(g) && Edge(next[k].weight, next[k].dest) in g.adj[next[k].src]
  {
    forall k | 0 <= k < |next|
      ensures next[k].src < Size(g) && Edge(next[k].weight, next[k].dest) in g.adj[next[k].src]
    {
      if k < |accepted| {
        assert next[k] == accepted[k];
      }
    }
  }

  lemma AcceptFrontier(g: Graph, start: nat, heap: seq<Candidate>, i: nat, inMst: seq<bool>,
                       expanded: set<nat>, pushed: seq<Candidate>)
    requires WellFormed(g) && start < Size(g) && i < |heap| && |inMst| == Size(g)
    requires FrontierOk(g, start, heap, inMst, expanded)
    requires heap[i].dest < Size(g)
    requires forall e :: e in g.adj[heap[i].dest] ==> Candidate(e.weight, e.dest, heap[i].dest) in pushed
    requires forall c :: c in pushed ==> c in Remove(heap, i) || (c.src == heap[i].dest && Edge(c.weight, c.dest) in g.adj[heap[i].dest])
    requires forall c :: c in Remove(heap, i) ==> c in pushed
    ensures var c := heap[i];
            && c.src < Size(g)
            && FrontierOk(g, start, pushed, inMst[c.src := true][c.dest := true], expanded + {c.dest})
  {
    var c := heap[i];
    var r := Remove(heap, i);
    var exp := expanded + {c.dest};
    assert c in heap;
    forall d | d in pushed
      ensures d.src in exp && Edge(d.weight, d.dest) in g.adj[d.src]
    {
      if d in r {
        assert d in multiset(r);
        assert d in heap;
      }
    }
    PendingAfterAccept(g, heap, i, inMst, expanded, pushed);
  }

  lemma PendingAfterAccept(g: Graph, heap: seq<Candidate>, i: nat, inMst: seq<bool>,
                           expanded: set<nat>, pushed: seq<Candidate>)
    requires WellFormed(g) && |inMst| == Size(g) && i < |heap|
    requires heap[i].src < Size(g) && heap[i].dest < Size(g)
    requires Pending(g, heap, inMst, expanded)
    requires forall e :: e in g.adj[heap[i].dest] ==> Candidate(e.weight, e.dest, heap[i].dest) in pushed
    requires forall c :: c in Remove(heap, i) ==> c in pushed
    ensures Pending(g, pushed, inMst[heap[i].src := true][heap[i].dest := true], expanded + {heap[i].dest})
  {
    var c := heap[i];
    var r := Remove(heap, i);
    var marks := inMst[c.src := true][c.dest := true];
    forall v, e | v in expanded + {c.dest} && v < Size(g) && e in g.adj[v]
      ensures Candidate(e.weight, e.dest, v) in pushed || (marks[v] && marks[e.dest])
    {
      var d := Candidate(e.weight, e.dest, v);
      if v != c.dest && d in heap && d != c {
        assert multiset(heap)[d] == multiset(r)[d];
        assert d in multiset(r);
      }
    }
  }

  /** Once the loop stops, every vertex the graph reaches from the start is
      in the tree, provided the start has an edge. */
  lemma ExitCovers(g: Graph, start: nat, heap: seq<Candidate>, inMst: seq<bool>,
                   expanded: set<nat>, accepted: seq<Candidate>, mst: Graph)
    requires WellFormed(g) && start < Size(g)
    requires PrimInv(g, start, heap, inMst, expanded, accepted, mst)
    requires |heap| == 0 || |accepted| >= Size(g)
    requires g.adj[start] != []
    ensures forall t :: 0 <= t < Size(g) && Reachable(g, start, t) ==> inMst[t]
  {
    if |accepted| >= Size(g) {
      forall t | 0 <= t < Size(g)
        ensures inMst[t]
      {
        CountFull(inMst, t);
      }
    } else {
      assert g.adj[start][0] in g.adj[start];
      assert inMst[start];
      forall u, j | 0 <= u < Size(g) && inMst[u] && 0 <= j < |g.adj[u]|
        ensures inMst[g.adj[u][j].dest]
      {
        assert g.adj[u][j] in g.adj[u];
      }
      assert MarksClosed(g, inMst);
      MarksCoverReachable(g, start, inMst);
    }
  }

  /** `primMST(start)`. The accepted edges number at most the marked
      vertices, so never more than the graph's size; every marked vertex is
      reached from the start along the result, whose entries are entries of
      g; and when the start has an edge, every vertex the graph reaches
      from the start ends up marked. */
  method PrimMst(g: Graph, start: nat) returns (mst: Graph, inMst: seq<bool>, sizeMst: nat)
    requires WellFormed(g) && Symmetric(g) && start < Size(g)
    ensures Size(mst) == Size(g) && !mst.directed && WellFormed(mst) && |inMst| == Size(g)
    ensures sizeMst <= Count(inMst) <= Size(g)
    ensures EntriesIn(mst, g)
    ensures forall v :: 0 <= v < Size(g) && inMst[v] ==> Reachable(mst, start, v)
    ensures g.adj[start] != [] ==> forall t :: 0 <= t < Size(g) && Reachable(g, start, t) ==> inMst[t]
    ensures g.adj[start] == [] ==> sizeMst == 0
  {
    var n := Size(g);
    mst := NewGraph(n, false);
    inMst := seq(n, _ => false);
    sizeMst := 0;
    var heap := PushList(g, start, []);
    ghost var expanded: set<nat> := {start};
    ghost var accepted: seq<Candidate> := [];
    PrimStart(g, start, heap);
    while |heap| > 0 && sizeMst < n
      invariant PrimInv(g, start, heap, inMst, expanded, accepted, mst)
      invariant sizeMst == |accepted|
      invariant g.adj[start] == [] ==> |heap| == 0 && sizeMst == 0
      decreases n - Count(inMst), |heap|
    {
      var i := MinIndex(heap);
      var c := heap[i];
      var rest := Remove(heap, i);
      if !inMst[c.src] || !inMst[c.dest] {
        var pushed := PushList(g, c.dest, rest);
        AcceptKeeps(g, start, heap, i, inMst, expanded, accepted, mst, pushed);
        mst := AppendEdge(mst, c.src, Edge(c.weight, c.dest));
        inMst := inMst[c.src := true][c.dest := true];
        sizeMst := sizeMst + 1;
        expanded := expanded + {c.dest};
        accepted := accepted + [c];
        heap := pushed;
      } else {
        RejectKeeps(g, start, heap, i, inMst, expanded, accepted, mst);
        heap := rest;
      }
    }
    PrimExit(g, start, heap, inMst, expanded, accepted, mst);
  }

  lemma PrimStart(g: Graph, start: nat, heap: seq<Candidate>)
    requires WellFormed(g) && start < Size(g)
    requires forall e :: e in g.adj[start] ==> Candidate(e.weight, e.dest, start) in heap
    requires forall c :: c in heap ==> c.src == start && Edge(c.weight, c.dest) in g.adj[start]
    ensures PrimInv(g, start, heap, seq(Size(g), _ => false), {start}, [], NewGraph(Size(g), false))
  {
    CountNone(seq(Size(g), _ => false));
  }

  /** What the loop leaves: the method's postconditions. */
  lemma PrimExit(g: Graph, start: nat, heap: seq<Candidate>, inMst: seq<bool>,
                 expanded: set<nat>, accepted: seq<Candidate>, mst: Graph)
    requires WellFormed(g) && Symmetric(g) && start < Size(g)
    requires PrimInv(g, start, heap, inMst, expanded, accepted, mst)
    requires |heap| == 0 || |accepted| >= Size(g)
    ensures Size(mst) == Size(g) && !mst.directed && WellFormed(mst)
    ensures EntriesIn(mst, g)
    ensures g.adj[start] != [] ==> forall t :: 0 <= t < Size(g) && Reachable(g, start, t) ==> inMst[t]
  {
    TreeWithin(Size(g), accepted, g);
    if g.adj[start] != [] {
      ExitCovers(g, start, heap, inMst, expanded, accepted, mst);
    }
  }

  lemma {:induction false} CountNone(marks: seq<bool>)
    requires forall v :: 0 <= v < |marks| ==> !marks[v]
    ensures Count(marks) == 0
  {
    if |marks| > 0 {
      CountNone(marks[..|marks| - 1]);
    }
  }
}
