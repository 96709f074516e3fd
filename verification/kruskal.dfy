/** Kruskal's algorithm as written in `kruskalMST`
    (trabalhos/uva_11710_expensive_subway/Graph.cpp) and inline in the
    driver of trabalhos/uva_11857_driving_range/uva_11857.cpp, which also
    reports the largest accepted weight. */
module Kruskal {
  import opened Graphs
  import opened UnionFind

  /** An entry of the edge list: the pair ((weight, destination), source). */
  datatype Candidate = Candidate(weight: int, dest: nat, src: nat)

  /** The order of std::pair on ((weight, destination), source). */
  predicate Before(a: Candidate, b: Candidate)
  {
    || a.weight < b.weight
    || (a.weight == b.weight && a.dest < b.dest)
    || (a.weight == b.weight && a.dest == b.dest && a.src <= b.src)
  }

  predicate Sorted(s: seq<Candidate>)
  {
    forall i, j :: 0 <= i < j < |s| ==> Before(s[i], s[j])
  }

  /** The entries of the lists of vertices 0..k-1, vertex by vertex and in
      list order, each tagged with its source vertex. */
  function CandidatesUpTo(g: Graph, k: nat): seq<Candidate>
    requires k <= Size(g)
  {
    if k == 0 then []
    else
      var list := g.adj[k - 1];
      CandidatesUpTo(g, k - 1) + seq(|list|, j requires 0 <= j < |list| => Candidate(list[j].weight, list[j].dest, k - 1))
  }

  /** The edge list both programs build before sorting: it holds exactly
      the entries of the adjacency lists, tagged with their source. */
  function Candidates(g: Graph): (r: seq<Candidate>)
    ensures forall x :: x in r <==> x.src < Size(g) && Edge(x.weight, x.dest) in g.adj[x.src]
  {
    CandidatesUpToMembers(g, Size(g));
    CandidatesUpTo(g, Size(g))
  }

  /** The list holds exactly the entries of vertices 0..k-1. */
  lemma {:induction false} CandidatesUpToMembers(g: Graph, k: nat)
    requires k <= Size(g)
    ensures forall x :: x in CandidatesUpTo(g, k) <==> x.src < k && Edge(x.weight, x.dest) in g.adj[x.src]
  {
    if k > 0 {
      CandidatesUpToMembers(g, k - 1);
      var list := g.adj[k - 1];
      var here := seq(|list|, j requires 0 <= j < |list| => Candidate(list[j].weight, list[j].dest, k - 1));
      assert CandidatesUpTo(g, k) == CandidatesUpTo(g, k - 1) + here;
      forall x: Candidate | x.src == k - 1 && Edge(x.weight, x.dest) in list
        ensures x in here
      {
        var j :| 0 <= j < |list| && list[j] == Edge(x.weight, x.dest);
        assert here[j] == x;
      }
    }
  }

  /** Putting the head of s in front of x inserted into the tail keeps the
      order and the contents, when x does not go first. */
  lemma InsertBehind(x: Candidate, s: seq<Candidate>, rest: seq<Candidate>)
    requires Sorted(s) && |s| > 0 && !Before(x, s[0])
    requires Sorted(rest) && multiset(rest) == multiset(s[1..]) + multiset{x}
    ensures Sorted([s[0]] + rest) && multiset([s[0]] + rest) == multiset(s) + multiset{x}
  {
    forall y | y in rest
      ensures Before(s[0], y)
    {
      assert y in multiset(rest);
      assert y == x || y in s[1..];
    }
    assert s == [s[0]] + s[1..];
  }

  /** Inserts x into a sorted list. */
  function Insert(x: Candidate, s: seq<Candidate>): (r: seq<Candidate>)
    requires Sorted(s)
    ensures Sorted(r) && multiset(r) == multiset(s) + multiset{x}
  {
    if |s| == 0 then [x]
    else if Before(x, s[0]) then [x] + s
    else
      var rest := Insert(x, s[1..]);
      InsertBehind(x, s, rest);
      [s[0]] + rest
  }

  /** `std::sort` of the edge list. */
  function Sort(s: seq<Candidate>): (r: seq<Candidate>)
    ensures Sorted(r) && multiset(r) == multiset(s)
  {
    if |s| == 0 then []
    else
      assert s == [s[0]] + s[1..];
      Insert(s[0], Sort(s[1..]))
  }

  /** Two sorted arrangements of one list start with the same entry. */
  lemma SameFirst(a: seq<Candidate>, b: seq<Candidate>)
    requires Sorted(a) && Sorted(b) && multiset(a) == multiset(b) && |a| > 0
    ensures |b| > 0 && a[0] == b[0]
  {
    assert a[0] in multiset(b);
    var i :| 0 <= i < |b| && b[i] == a[0];
    assert b[0] in multiset(a);
    var j :| 0 <= j < |a| && a[j] == b[0];
    assert Before(b[0], b[i]) && Before(a[0], a[j]);
  }

  lemma TailMultiset(a: seq<Candidate>, b: seq<Candidate>)
    requires |a| > 0 && |b| > 0 && a[0] == b[0] && multiset(a) == multiset(b)
    ensures multiset(a[1..]) == multiset(b[1..])
  {
    assert a == [a[0]] + a[1..] && b == [b[0]] + b[1..];
    assert multiset(a) == multiset{a[0]} + multiset(a[1..]);
    assert multiset(b) == multiset{b[0]} + multiset(b[1..]);
    forall y
      ensures multiset(a[1..])[y] == multiset(b[1..])[y]
    {
      assert multiset(a)[y] == multiset{a[0]}[y] + multiset(a[1..])[y];
      assert multiset(b)[y] == multiset{b[0]}[y] + multiset(b[1..])[y];
    }
  }

  /** The order is total on distinct entries, so a list has only one sorted
      arrangement: any sorting algorithm yields `Sort`'s result. */
  lemma {:induction false} SortedUnique(a: seq<Candidate>, b: seq<Candidate>)
    requires Sorted(a) && Sorted(b) && multiset(a) == multiset(b)
    ensures a == b
    decreases |a|
  {
    if |a| > 0 {
      SameFirst(a, b);
      TailMultiset(a, b);
      assert Sorted(a[1..]) && Sorted(b[1..]);
      SortedUnique(a[1..], b[1..]);
      assert a == [a[0]] + a[1..] && b == [b[0]] + b[1..];
    } else {
      assert |b| == |multiset(b)| == 0;
    }
  }

  // The spanning forest.

  /** Both endpoints of every entry name vertices 0..n-1. */
  predicate InRange(n: nat, s: seq<Candidate>)
  {
    forall k :: 0 <= k < |s| ==> s[k].src < n && s[k].dest < n
  }

  lemma CandidatesInRange(g: Graph)
    requires WellFormed(g)
    ensures InRange(Size(g), Sort(Candidates(g)))
  {
    var sorted := Sort(Candidates(g));
    forall k | 0 <= k < |sorted|
      ensures sorted[k].src < Size(g) && sorted[k].dest < Size(g)
    {
      assert sorted[k] in multiset(Candidates(g));
      var c := sorted[k];
      var j :| 0 <= j < |g.adj[c.src]| && g.adj[c.src][j] == Edge(c.weight, c.dest);
    }
  }

  /** The tree Kruskal's algorithm evidently means to build: an undirected
      graph receiving (weight, destination) at the source of every accepted
      entry, in order. */
  function Tree(n: nat, accepted: seq<Candidate>): (t: Graph)
    requires InRange(n, accepted)
    ensures Size(t) == n && !t.directed && WellFormed(t) && Symmetric(t)
  {
    if |accepted| == 0 then NewGraph(n, false)
    else
      var prev := Tree(n, accepted[..|accepted| - 1]);
      var c := accepted[|accepted| - 1];
      AppendEdgeSymmetric(prev, c.src, Edge(c.weight, c.dest));
      AppendEdge(prev, c.src, Edge(c.weight, c.dest))
  }

  lemma TreeAppend(n: nat, accepted: seq<Candidate>, c: Candidate)
    requires InRange(n, accepted) && c.src < n && c.dest < n
    ensures InRange(n, accepted + [c])
    ensures Tree(n, accepted + [c]) == AppendEdge(Tree(n, accepted), c.src, Edge(c.weight, c.dest))
  {
    assert (accepted + [c])[..|accepted|] == accepted;
  }

  /** The union-find sets and a tree agree: every vertex reaches its
      representative along the tree, and no tree entry leaves a set. */
  ghost predicate Spanning(f: Forest, t: Graph)
  {
    && Valid(f) && |f.parent| == Size(t) && WellFormed(t) && !t.directed && Symmetric(t)
    && (forall u :: 0 <= u < Size(t) ==> Reachable(t, u, Rep(f, u)))
    && (forall u, j :: 0 <= u < Size(t) && 0 <= j < |t.adj[u]| ==> SameSet(f, u, t.adj[u][j].dest))
  }

  lemma SpanningInit(n: nat)
    ensures Spanning(Init(n), Tree(n, []))
  {
    var t := Tree(n, []);
    forall u | 0 <= u < n
      ensures Reachable(t, u, Rep(Init(n), u))
    {
      ReachableRefl(t, u);
    }
  }

  /** Path compression keeps the agreement. */
  lemma SpanningFind(f: Forest, t: Graph, x: nat)
    requires Spanning(f, t) && x < |f.parent|
    ensures Spanning(Find(f, x).1, t)
  {
    var g := Find(f, x).1;
    forall u | 0 <= u < Size(t)
      ensures Reachable(t, u, Rep(g, u))
    {
      assert Rep(g, u) == Rep(f, u);
    }
    forall u, j | 0 <= u < Size(t) && 0 <= j < |t.adj[u]|
      ensures SameSet(g, u, t.adj[u][j].dest)
    {
      var v := t.adj[u][j].dest;
      assert SameSet(f, u, v);
      assert Rep(g, u) == Rep(f, u) && Rep(g, v) == Rep(f, v);
    }
  }

  /** Adding the edge of c to t keeps every entry within one set of any
      forest that keeps the sets of f together and joins the ends of c. */
  lemma EntriesStep(f: Forest, g: Forest, t: Graph, c: Candidate)
    requires Valid(f) && Valid(g) && |f.parent| == Size(t) && |g.parent| == Size(t) && !t.directed && WellFormed(t)
    requires c.src < Size(t) && c.dest < Size(t)
    requires forall u, j :: 0 <= u < Size(t) && 0 <= j < |t.adj[u]| ==> SameSet(f, u, t.adj[u][j].dest)
    requires forall u: nat, v: nat :: u < |f.parent| && v < |f.parent| && SameSet(f, u, v) ==> SameSet(g, u, v)
    requires SameSet(g, c.src, c.dest)
    ensures var h := AppendEdge(t, c.src, Edge(c.weight, c.dest));
            forall u, j :: 0 <= u < Size(h) && 0 <= j < |h.adj[u]| ==> SameSet(g, u, h.adj[u][j].dest)
  {
    var h := AppendEdge(t, c.src, Edge(c.weight, c.dest));
    forall u, j | 0 <= u < Size(h) && 0 <= j < |h.adj[u]|
      ensures SameSet(g, u, h.adj[u][j].dest)
    {
      if u != c.src && u != c.dest {
        assert h.adj[u] == t.adj[u];
        assert SameSet(f, u, t.adj[u][j].dest);
      } else if j < |t.adj[u]| {
        assert h.adj[u][j] == t.adj[u][j];
        assert SameSet(f, u, t.adj[u][j].dest);
      } else if u == c.src {
        assert h.adj[u][j].dest in {c.dest, c.src};
      } else {
        assert h.adj[u][j].dest == c.src;
      }
    }
  }

  /** After the merge, the new entries join one set and the old ones stay
      within sets. */
  lemma EntriesAfterMerge(f: Forest, t: Graph, c: Candidate)
    requires Valid(f) && |f.parent| == Size(t) && !t.directed && WellFormed(t)
    requires c.src < Size(t) && c.dest < Size(t)
    requires forall u, j :: 0 <= u < Size(t) && 0 <= j < |t.adj[u]| ==> SameSet(f, u, t.adj[u][j].dest)
    ensures var g := Merge(f, Rep(f, c.src), Rep(f, c.dest));
            var h := AppendEdge(t, c.src, Edge(c.weight, c.dest));
            forall u, j :: 0 <= u < Size(h) && 0 <= j < |h.adj[u]| ==> SameSet(g, u, h.adj[u][j].dest)
  {
    var sr, dr := Rep(f, c.src), Rep(f, c.dest);
    var g := Merge(f, sr, dr);
    forall u: nat, v: nat | u < |f.parent| && v < |f.parent| && SameSet(f, u, v)
      ensures SameSet(g, u, v)
    {
      MergeKeepsSameSet(f, sr, dr, u, v);
    }
    assert SameSet(g, c.src, c.dest);
    EntriesStep(f, g, t, c);
  }

  /** Hanging one root under the other and adding the entry that joins them
      keeps the agreement. */
  lemma SpanningMerge(f: Forest, t: Graph, c: Candidate)
    requires Spanning(f, t) && c.src < Size(t) && c.dest < Size(t)
    requires !SameSet(f, c.src, c.dest)
    ensures Spanning(Merge(f, Rep(f, c.src), Rep(f, c.dest)), AppendEdge(t, c.src, Edge(c.weight, c.dest)))
  {
    var sr, dr := Rep(f, c.src), Rep(f, c.dest);
    var g := Merge(f, sr, dr);
    var h := AppendEdge(t, c.src, Edge(c.weight, c.dest));
    AppendEdgeSymmetric(t, c.src, Edge(c.weight, c.dest));
    AdjacentAfterAppend(t, c.src, Edge(c.weight, c.dest));
    // The two old roots reach each other through the new entry.
    ReachableAfterAppend(t, c.src, Edge(c.weight, c.dest), c.src, sr);
    ReachableAfterAppend(t, c.src, Edge(c.weight, c.dest), c.dest, dr);
    ReachableSymmetric(h, c.src, sr);
    ReachableSymmetric(h, c.dest, dr);
    ReachableRefl(h, c.src);
    ReachableStep(h, c.src, c.src, c.dest);
    ReachableTrans(h, sr, c.src, c.dest);
    ReachableTrans(h, sr, c.dest, dr);
    ReachableSymmetric(h, sr, dr);
    forall u | 0 <= u < Size(h)
      ensures Reachable(h, u, Rep(g, u))
    {
      ReachableAfterAppend(t, c.src, Edge(c.weight, c.dest), u, Rep(f, u));
      if Rep(f, u) == sr && Rep(g, u) == dr {
        ReachableTrans(h, u, sr, dr);
      } else if Rep(f, u) == dr && Rep(g, u) == sr {
        ReachableTrans(h, u, dr, sr);
      }
    }
    EntriesAfterMerge(f, t, c);
  }

  /** In agreement, the sets are exactly the tree's connected components. */
  lemma SpanningComponents(f: Forest, t: Graph, u: nat, v: nat)
    requires Spanning(f, t) && u < Size(t) && v < Size(t)
    ensures Reachable(t, u, v) <==> SameSet(f, u, v)
  {
    if SameSet(f, u, v) {
      ReachableSymmetric(t, v, Rep(f, v));
      ReachableTrans(t, u, Rep(f, u), v);
    }
    if Reachable(t, u, v) {
      var component := set x: nat | x < Size(t) && SameSet(f, u, x);
      forall a, b | a in component && Adjacent(t, a, b)
        ensures b in component
      {
        var j :| 0 <= j < |t.adj[a]| && t.adj[a][j].dest == b;
        assert SameSet(f, a, b);
      }
      ClosedHoldsReachable(t, u, v, component);
    }
  }

  // The scan over the sorted edge list.

  /** The state of the loop: the union-find forest and the accepted entries. */
  datatype Scan = Scan(forest: Forest, accepted: seq<Candidate>)

  const SizeMax: nat := 0xFFFF_FFFF_FFFF_FFFF

  /** `graphSize - 1` in size_t arithmetic, which wraps to SIZE_MAX for an
      empty graph. */
  function SizeMinusOne(n: nat): (m: nat)
    ensures n >= 1 ==> m + 1 == n
    ensures n == 0 ==> m == SizeMax
  {
    if n == 0 then SizeMax else n - 1
  }

  /** One pass of the loop body on entry c: find both roots and, when they
      differ, accept c and merge the roots. */
  function Consider(s: Scan, c: Candidate): (r: Scan)
    requires Valid(s.forest) && c.src < |s.forest.parent| && c.dest < |s.forest.parent|
    ensures Valid(r.forest) && |r.forest.parent| == |s.forest.parent|
    ensures SameSet(r.forest, c.src, c.dest)
    ensures r.accepted == if SameSet(s.forest, c.src, c.dest) then s.accepted else s.accepted + [c]
  {
    var srcFind := Find(s.forest, c.src);
    var destFind := Find(srcFind.1, c.dest);
    if srcFind.0 != destFind.0 then Scan(Merge(destFind.1, srcFind.0, destFind.0), s.accepted + [c])
    else Scan(destFind.1, s.accepted)
  }

  /** The loop invariant after the first i entries of the sorted list. */
  ghost predicate ScanInv(n: nat, edges: seq<Candidate>, i: nat, s: Scan)
  {
    && i <= |edges| && InRange(n, s.accepted)
    && Spanning(s.forest, Tree(n, s.accepted))
    && |s.accepted| + |Roots(s.forest)| == n
    && Covered(n, s.forest, edges, i)
    && Drawn(edges, i, s.accepted)
    && NoCycle(n, s.accepted)
  }

  /** Each accepted entry joined two vertices that the tree of the entries
      accepted before it did not connect: the tree never closes a cycle. */
  ghost predicate NoCycle(n: nat, accepted: seq<Candidate>)
    requires InRange(n, accepted)
  {
    |accepted| == 0 ||
      var prefix := accepted[..|accepted| - 1];
      var c := accepted[|accepted| - 1];
      NoCycle(n, prefix) && !Reachable(Tree(n, prefix), c.src, c.dest)
  }

  /** NoCycle, entry by entry. */
  lemma {:induction false} NoCycleAt(n: nat, accepted: seq<Candidate>, k: nat)
    requires InRange(n, accepted) && NoCycle(n, accepted) && k < |accepted|
    ensures !Reachable(Tree(n, accepted[..k]), accepted[k].src, accepted[k].dest)
  {
    var prefix := accepted[..|accepted| - 1];
    if k < |accepted| - 1 {
      NoCycleAt(n, prefix, k);
      assert prefix[..k] == accepted[..k];
    }
  }

  lemma NoCycleAppend(n: nat, accepted: seq<Candidate>, c: Candidate)
    requires InRange(n, accepted) && c.src < n && c.dest < n && NoCycle(n, accepted)
    requires !Reachable(Tree(n, accepted), c.src, c.dest)
    ensures InRange(n, accepted + [c]) && NoCycle(n, accepted + [c])
  {
    assert (accepted + [c])[..|accepted|] == accepted;
  }

  /** The first i entries each join one set. */
  ghost predicate Covered(n: nat, f: Forest, edges: seq<Candidate>, i: nat)
    requires Valid(f) && |f.parent| == n
  {
    forall k :: 0 <= k < i && k < |edges| ==> edges[k].src < n && edges[k].dest < n && SameSet(f, edges[k].src, edges[k].dest)
  }

  /** The accepted entries come from the first i entries and, on a sorted
      list, are sorted. */
  ghost predicate Drawn(edges: seq<Candidate>, i: nat, accepted: seq<Candidate>)
    requires i <= |edges|
  {
    && (forall k :: 0 <= k < |accepted| ==> accepted[k] in edges[..i])
    && (Sorted(edges) ==> Sorted(accepted))
  }

  lemma CoveredAt(n: nat, f: Forest, edges: seq<Candidate>, i: nat, k: nat)
    requires Valid(f) && |f.parent| == n && Covered(n, f, edges, i) && k < i && k < |edges|
    ensures edges[k].src < n && edges[k].dest < n && SameSet(f, edges[k].src, edges[k].dest)
  {
  }

  lemma CoveredAfterFind(n: nat, f: Forest, edges: seq<Candidate>, i: nat, x: nat)
    requires Valid(f) && |f.parent| == n && x < n && Covered(n, f, edges, i)
    ensures Covered(n, Find(f, x).1, edges, i)
  {
    var g := Find(f, x).1;
    forall k | 0 <= k < i && k < |edges|
      ensures SameSet(g, edges[k].src, edges[k].dest)
    {
      assert SameSet(f, edges[k].src, edges[k].dest);
    }
  }

  lemma ScanStart(n: nat, edges: seq<Candidate>)
    ensures ScanInv(n, edges, 0, Scan(Init(n), []))
  {
    assert Covered(n, Init(n), edges, 0);
    SpanningInit(n);
    InitRoots(n);
  }

  /** Accepting the next entry keeps the accepted entries drawn from the
      scanned prefix and, on a sorted list, sorted. */
  lemma AcceptedOrder(edges: seq<Candidate>, i: nat, accepted: seq<Candidate>)
    requires i < |edges|
    requires Drawn(edges, i, accepted)
    ensures Drawn(edges, i + 1, accepted + [edges[i]])
  {
    var next := accepted + [edges[i]];
    forall k | 0 <= k < |next|
      ensures next[k] in edges[..i + 1]
    {
      if k < |accepted| {
        assert next[k] in edges[..i];
      } else {
        assert next[k] == edges[..i + 1][i];
      }
    }
    if Sorted(edges) {
      forall a, b | 0 <= a < b < |next|
        ensures Before(next[a], next[b])
      {
        if b == |accepted| {
          var j :| 0 <= j < i && edges[j] == accepted[a];
        }
      }
    }
  }

  /** Covering extends past entry i into any forest that keeps every set
      together and joins the ends of entry i. */
  lemma CoveredStep(n: nat, f: Forest, g: Forest, edges: seq<Candidate>, i: nat)
    requires Valid(f) && Valid(g) && |f.parent| == n && |g.parent| == n && i < |edges|
    requires edges[i].src < n && edges[i].dest < n
    requires Covered(n, f, edges, i)
    requires SameSet(g, edges[i].src, edges[i].dest)
    requires forall u: nat, v: nat :: u < n && v < n && SameSet(f, u, v) ==> SameSet(g, u, v)
    ensures Covered(n, g, edges, i + 1)
  {
  }

  /** After merging the roots of entry i, entries 0..i all join one set. */
  lemma ScannedAfterMerge(n: nat, f: Forest, edges: seq<Candidate>, i: nat)
    requires Valid(f) && |f.parent| == n && i < |edges|
    requires edges[i].src < n && edges[i].dest < n
    requires Covered(n, f, edges, i)
    ensures Covered(n, Merge(f, Rep(f, edges[i].src), Rep(f, edges[i].dest)), edges, i + 1)
  {
    var sr, dr := Rep(f, edges[i].src), Rep(f, edges[i].dest);
    var g := Merge(f, sr, dr);
    forall u: nat, v: nat | u < n && v < n && SameSet(f, u, v)
      ensures SameSet(g, u, v)
    {
      MergeKeepsSameSet(f, sr, dr, u, v);
    }
    assert Rep(g, edges[i].src) == Winner(f, sr, dr) == Rep(g, edges[i].dest);
    CoveredStep(n, f, g, edges, i);
  }

  /** The two `find` calls of the loop body keep the invariant. */
  lemma FindKeeps(n: nat, edges: seq<Candidate>, i: nat, s: Scan, x: nat)
    requires ScanInv(n, edges, i, s) && x < n
    ensures ScanInv(n, edges, i, Scan(Find(s.forest, x).1, s.accepted))
  {
    SpanningFind(s.forest, Tree(n, s.accepted), x);
    FindRoots(s.forest, x);
    CoveredAfterFind(n, s.forest, edges, i, x);
  }

  /** The loop body on an entry whose endpoints already share a set. */
  lemma ConsiderRejects(n: nat, edges: seq<Candidate>, i: nat, s: Scan)
    requires ScanInv(n, edges, i, s) && i < |edges|
    requires edges[i].src < n && edges[i].dest < n
    requires SameSet(s.forest, edges[i].src, edges[i].dest)
    ensures ScanInv(n, edges, i + 1, s)
  {
    assert Covered(n, s.forest, edges, i + 1);
    DrawnGrows(edges, i, s.accepted);
  }

  lemma DrawnGrows(edges: seq<Candidate>, i: nat, accepted: seq<Candidate>)
    requires i < |edges| && Drawn(edges, i, accepted)
    ensures Drawn(edges, i + 1, accepted)
  {
    forall k | 0 <= k < |accepted|
      ensures accepted[k] in edges[..i + 1]
    {
      assert accepted[k] in edges[..i];
      assert edges[..i] <= edges[..i + 1];
    }
  }

  /** The loop body on an entry joining two sets. */
  lemma ConsiderAccepts(n: nat, edges: seq<Candidate>, i: nat, s: Scan)
    requires ScanInv(n, edges, i, s) && i < |edges|
    requires edges[i].src < n && edges[i].dest < n
    requires !SameSet(s.forest, edges[i].src, edges[i].dest)
    ensures var f := s.forest;
            ScanInv(n, edges, i + 1, Scan(Merge(f, Rep(f, edges[i].src), Rep(f, edges[i].dest)), s.accepted + [edges[i]]))
  {
    var c := edges[i];
    var f := s.forest;
    var sr, dr := Rep(f, c.src), Rep(f, c.dest);
    var g := Merge(f, sr, dr);
    var accepted := s.accepted + [c];
    TreeAppend(n, s.accepted, c);
    assert Spanning(g, Tree(n, accepted)) by {
      SpanningMerge(f, Tree(n, s.accepted), c);
    }
    assert |accepted| + |Roots(g)| == n by {
      assert Rep(f, sr) == sr && Rep(f, dr) == dr;
      MergeRoots(f, sr, dr);
    }
    ScannedAfterMerge(n, f, edges, i);
    AcceptedOrder(edges, i, s.accepted);
    assert !Reachable(Tree(n, s.accepted), c.src, c.dest) by {
      SpanningComponents(f, Tree(n, s.accepted), c.src, c.dest);
    }
    NoCycleAppend(n, s.accepted, c);
  }

  lemma ConsiderKeeps(n: nat, edges: seq<Candidate>, i: nat, s: Scan)
    requires ScanInv(n, edges, i, s) && i < |edges|
    requires edges[i].src < n && edges[i].dest < n
    ensures ScanInv(n, edges, i + 1, Consider(s, edges[i]))
  {
    var c := edges[i];
    var srcFind := Find(s.forest, c.src);
    FindKeeps(n, edges, i, s, c.src);
    var s1 := Scan(srcFind.1, s.accepted);
    var destFind := Find(s1.forest, c.dest);
    FindKeeps(n, edges, i, s1, c.dest);
    var s2 := Scan(destFind.1, s.accepted);
    if srcFind.0 != destFind.0 {
      ConsiderAccepts(n, edges, i, s2);
    } else {
      ConsiderRejects(n, edges, i, s2);
    }
  }

  /** What holds once the loop stops. */
  ghost predicate Finished(n: nat, edges: seq<Candidate>, r: Scan)
  {
    && InRange(n, r.accepted)
    && Spanning(r.forest, Tree(n, r.accepted))
    && |r.accepted| + |Roots(r.forest)| == n
    && Drawn(edges, |edges|, r.accepted)
    && NoCycle(n, r.accepted)
    && (|r.accepted| < SizeMinusOne(n) ==> Covered(n, r.forest, edges, |edges|))
  }

  lemma DrawnPrefix(edges: seq<Candidate>, i: nat, j: nat, accepted: seq<Candidate>)
    requires i <= j <= |edges| && Drawn(edges, i, accepted)
    ensures Drawn(edges, j, accepted)
  {
    forall k | 0 <= k < |accepted|
      ensures accepted[k] in edges[..j]
    {
      assert accepted[k] in edges[..i];
      assert edges[..i] <= edges[..j];
    }
  }

  /** The loop from entry i on. It stops at the end of the list or as soon
      as `graphSize - 1` entries are accepted. */
  function ScanFrom(n: nat, edges: seq<Candidate>, i: nat, s: Scan): (r: Scan)
    requires InRange(n, edges) && ScanInv(n, edges, i, s)
    ensures Finished(n, edges, r)
    decreases |edges| - i
  {
    if i < |edges| && |s.accepted| < SizeMinusOne(n) then
      ConsiderKeeps(n, edges, i, s);
      ScanFrom(n, edges, i + 1, Consider(s, edges[i]))
    else
      DrawnPrefix(edges, i, |edges|, s.accepted);
      s
  }

  /** Kruskal's loop on the sorted edge list of g. */
  function KruskalScan(g: Graph): (r: Scan)
    requires WellFormed(g)
    ensures Finished(Size(g), Sort(Candidates(g)), r)
  {
    CandidatesInRange(g);
    ScanStart(Size(g), Sort(Candidates(g)));
    ScanFrom(Size(g), Sort(Candidates(g)), 0, Scan(Init(Size(g)), []))
  }

  /** `kruskalMST` with the accepted edge recorded as (weight, destination)
      at its source. */
  function KruskalMst(g: Graph): (t: Graph)
    requires WellFormed(g)
    ensures Size(t) == Size(g) && !t.directed && Symmetric(t)
  {
    Tree(Size(g), KruskalScan(g).accepted)
  }

  // What the result is.

  /** The result is a forest whose components are the final sets: no
      accepted edge closes a cycle, the accepted edges and the sets together
      number the vertices, so at most size-1 edges are accepted. */
  lemma KruskalForest(g: Graph)
    requires WellFormed(g)
    ensures var r := KruskalScan(g);
            && NoCycle(Size(g), r.accepted)
            && |r.accepted| + |Roots(r.forest)| == Size(g)
            && (Size(g) >= 1 ==> |r.accepted| <= Size(g) - 1)
            && forall u: nat, v: nat :: u < Size(g) && v < Size(g) ==>
                 (Reachable(KruskalMst(g), u, v) <==> SameSet(r.forest, u, v))
  {
    var r := KruskalScan(g);
    if Size(g) >= 1 {
      assert Rep(r.forest, 0) in Roots(r.forest);
    }
    forall u: nat, v: nat | u < Size(g) && v < Size(g)
      ensures Reachable(KruskalMst(g), u, v) <==> SameSet(r.forest, u, v)
    {
      SpanningComponents(r.forest, KruskalMst(g), u, v);
    }
  }

  /** An entry drawn from a reordering of the candidates is an entry of g. */
  lemma DrawnFromGraph(g: Graph, edges: seq<Candidate>, accepted: seq<Candidate>, k: nat)
    requires multiset(edges) == multiset(Candidates(g))
    requires Drawn(edges, |edges|, accepted) && k < |accepted|
    ensures accepted[k].src < |g.adj| && Edge(accepted[k].weight, accepted[k].dest) in g.adj[accepted[k].src]
  {
    assert accepted[k] in edges[..|edges|];
    assert edges[..|edges|] == edges;
    assert accepted[k] in multiset(Candidates(g));
  }

  /** Every accepted entry is an entry of g. */
  lemma AcceptedFromGraph(g: Graph)
    requires WellFormed(g)
    ensures var accepted := KruskalScan(g).accepted;
            forall k :: 0 <= k < |accepted| ==> Edge(accepted[k].weight, accepted[k].dest) in g.adj[accepted[k].src]
  {
    var edges := Sort(Candidates(g));
    var accepted := KruskalScan(g).accepted;
    assert Drawn(edges, |edges|, accepted);
    forall k | 0 <= k < |accepted|
      ensures Edge(accepted[k].weight, accepted[k].dest) in g.adj[accepted[k].src]
    {
      DrawnFromGraph(g, edges, accepted, k);
    }
  }

  /** In an undirected graph an entry's reverse is an entry too. */
  lemma ReverseEntry(g: Graph, u: nat, e: Edge)
    requires Symmetric(g) && WellFormed(g) && u < Size(g) && e in g.adj[u]
    ensures Edge(e.weight, u) in g.adj[e.dest]
  {
    assert Occurrences(g, u, e.dest, e.weight) > 0;
    assert Occurrences(g, e.dest, u, e.weight) > 0;
  }

  /** Every entry of t is an entry of g at the same vertex. */
  ghost predicate EntriesIn(t: Graph, g: Graph)
  {
    && Size(t) == Size(g)
    && forall u, j :: 0 <= u < Size(t) && 0 <= j < |t.adj[u]| ==> t.adj[u][j] in g.adj[u]
  }

  /** A tree of entries taken from an undirected graph holds only entries of
      that graph, at the same vertex. */
  lemma {:induction false} TreeWithin(n: nat, accepted: seq<Candidate>, g: Graph)
    requires InRange(n, accepted) && Size(g) == n && WellFormed(g) && Symmetric(g)
    requires forall k :: 0 <= k < |accepted| ==> Edge(accepted[k].weight, accepted[k].dest) in g.adj[accepted[k].src]
    ensures EntriesIn(Tree(n, accepted), g)
  {
    if |accepted| > 0 {
      var prefix := accepted[..|accepted| - 1];
      var c := accepted[|accepted| - 1];
      TreeWithin(n, prefix, g);
      assert Edge(c.weight, c.dest) in g.adj[c.src];
      ReverseEntry(g, c.src, Edge(c.weight, c.dest));
      var prev := Tree(n, prefix);
      var t := Tree(n, accepted);
      forall u, j | 0 <= u < n && 0 <= j < |t.adj[u]|
        ensures t.adj[u][j] in g.adj[u]
      {
        if u != c.src && u != c.dest {
          assert t.adj[u] == prev.adj[u];
        } else if j < |prev.adj[u]| {
          assert t.adj[u][j] == prev.adj[u][j];
        } else if c.dest == c.src {
          assert t.adj[u] == prev.adj[u] + [Edge(c.weight, c.dest), Edge(c.weight, c.src)];
        } else if u == c.src {
          assert t.adj[u] == prev.adj[u] + [Edge(c.weight, c.dest)];
        } else {
          assert t.adj[u] == prev.adj[u] + [Edge(c.weight, c.src)];
        }
      }
    }
  }

  /** Each edge of the result is an original edge of g with the same weight,
      at the same vertex. */
  lemma KruskalEdgesOriginal(g: Graph)
    requires WellFormed(g) && Symmetric(g)
    ensures EntriesIn(KruskalMst(g), g)
  {
    AcceptedFromGraph(g);
    TreeWithin(Size(g), KruskalScan(g).accepted, g);
  }

  /** An adjacency of a graph whose entries all come from g is one of g. */
  lemma AdjacentWithin(t: Graph, g: Graph, a: nat, b: nat)
    requires EntriesIn(t, g) && Adjacent(t, a, b)
    ensures Adjacent(g, a, b)
  {
    var j :| 0 <= j < |t.adj[a]| && t.adj[a][j].dest == b;
    assert t.adj[a][j] in g.adj[a];
    var i :| 0 <= i < |g.adj[a]| && g.adj[a][i] == t.adj[a][j];
  }

  /** Vertices joined in the result are joined in g. */
  lemma KruskalReachableInGraph(g: Graph, u: nat, v: nat)
    requires WellFormed(g) && Symmetric(g)
    requires Reachable(KruskalMst(g), u, v)
    ensures Reachable(g, u, v)
  {
    var t := KruskalMst(g);
    KruskalEdgesOriginal(g);
    forall a: nat, b: nat | Adjacent(t, a, b)
      ensures Adjacent(g, a, b)
    {
      AdjacentWithin(t, g, a, b);
    }
    ReachableInSupergraph(t, g, u, v);
  }

  /** Sets that join the endpoints of every entry of the edge list join
      every pair of adjacent vertices of g. */
  lemma CoveredJoinsAdjacent(g: Graph, f: Forest, edges: seq<Candidate>, a: nat, b: nat)
    requires WellFormed(g) && Valid(f) && |f.parent| == Size(g)
    requires multiset(edges) == multiset(Candidates(g))
    requires Covered(Size(g), f, edges, |edges|)
    requires Adjacent(g, a, b)
    ensures SameSet(f, a, b)
  {
    var j :| 0 <= j < |g.adj[a]| && g.adj[a][j].dest == b;
    var c := Candidate(g.adj[a][j].weight, b, a);
    assert c in multiset(edges) by {
      assert c in Candidates(g);
    }
    var k :| 0 <= k < |edges| && edges[k] == c;
    CoveredAt(Size(g), f, edges, |edges|, k);
  }

  /** Sets closed under adjacency in a connected graph are a single set. */
  lemma ClosedConnectedOneSet(g: Graph, f: Forest)
    requires WellFormed(g) && Size(g) >= 1 && Valid(f) && |f.parent| == Size(g)
    requires forall a: nat, b: nat :: Adjacent(g, a, b) ==> a < Size(g) && b < Size(g) && SameSet(f, a, b)
    requires forall v :: 0 <= v < Size(g) ==> Reachable(g, 0, v)
    ensures |Roots(f)| == 1
  {
    var component := set x: nat | x < Size(g) && SameSet(f, 0, x);
    forall v | 0 <= v < Size(g)
      ensures SameSet(f, 0, v)
    {
      assert 0 in component;
      ClosedHoldsReachable(g, 0, v, component);
    }
    AllSameOneRoot(f);
  }

  /** On a connected graph the loop ends with a single set. */
  lemma ConnectedOneSet(g: Graph)
    requires WellFormed(g) && Size(g) >= 1
    requires forall v :: 0 <= v < Size(g) ==> Reachable(g, 0, v)
    ensures |Roots(KruskalScan(g).forest)| == 1
  {
    var r := KruskalScan(g);
    var edges := Sort(Candidates(g));
    var f := r.forest;
    assert Rep(f, 0) in Roots(f);
    if |r.accepted| < SizeMinusOne(Size(g)) {
      assert Covered(Size(g), f, edges, |edges|);
      forall a: nat, b: nat | Adjacent(g, a, b)
        ensures a < Size(g) && b < Size(g) && SameSet(f, a, b)
      {
        CoveredJoinsAdjacent(g, f, edges, a, b);
      }
      ClosedConnectedOneSet(g, f);
    }
  }

  /** On a connected undirected graph the result spans every vertex. */
  lemma KruskalSpans(g: Graph)
    requires WellFormed(g) && Size(g) >= 1
    requires forall v :: 0 <= v < Size(g) ==> Reachable(g, 0, v)
    ensures forall v :: 0 <= v < Size(g) ==> Reachable(KruskalMst(g), 0, v)
  {
    var r := KruskalScan(g);
    ConnectedOneSet(g);
    forall v | 0 <= v < Size(g)
      ensures Reachable(KruskalMst(g), 0, v)
    {
      OneRoot(r.forest, 0, v);
      SpanningComponents(r.forest, KruskalMst(g), 0, v);
    }
  }

  /** size-1 entries are accepted exactly when the undirected graph is
      connected. */
  lemma AllAcceptedIffConnected(g: Graph)
    requires WellFormed(g) && Symmetric(g) && Size(g) >= 1
    ensures |KruskalScan(g).accepted| == Size(g) - 1 <==> forall v :: 0 <= v < Size(g) ==> Reachable(g, 0, v)
  {
    var r := KruskalScan(g);
    KruskalForest(g);
    if forall v :: 0 <= v < Size(g) ==> Reachable(g, 0, v) {
      ConnectedOneSet(g);
    }
    if |r.accepted| == Size(g) - 1 {
      forall v | 0 <= v < Size(g)
        ensures Reachable(g, 0, v)
      {
        OneRoot(r.forest, 0, v);
        KruskalReachableInGraph(g, 0, v);
      }
    }
  }

  // Weights and the tree as written.

  /** The sum of the accepted weights. */
  function AcceptedWeight(accepted: seq<Candidate>): int
  {
    if |accepted| == 0 then 0 else AcceptedWeight(accepted[..|accepted| - 1]) + accepted[|accepted| - 1].weight
  }

  /** The tree as `kruskalMST` writes it: `std::make_pair(weight, source)`
      is appended at the source, so every accepted entry becomes a
      self-loop. */
  function AsWrittenTree(n: nat, accepted: seq<Candidate>): (t: Graph)
    requires InRange(n, accepted)
    ensures Size(t) == n && !t.directed && WellFormed(t)
  {
    if |accepted| == 0 then NewGraph(n, false)
    else
      var c := accepted[|accepted| - 1];
      AppendEdge(AsWrittenTree(n, accepted[..|accepted| - 1]), c.src, Edge(c.weight, c.src))
  }

  function KruskalMstAsWritten(g: Graph): (t: Graph)
    requires WellFormed(g)
    ensures Size(t) == Size(g) && SelfLoopsOnly(t)
  {
    AsWrittenSelfLoops(Size(g), KruskalScan(g).accepted);
    AsWrittenTree(Size(g), KruskalScan(g).accepted)
  }

  /** Both trees are undirected, so their lists hold every accepted weight
      twice. */
  lemma {:induction false} TreeWeights(n: nat, accepted: seq<Candidate>)
    requires InRange(n, accepted)
    ensures TotalWeight(Tree(n, accepted)) == 2 * AcceptedWeight(accepted)
    ensures TotalWeight(AsWrittenTree(n, accepted)) == 2 * AcceptedWeight(accepted)
  {
    if |accepted| == 0 {
      WeightUpToEmpty(NewGraph(n, false).adj, n);
    } else {
      var prefix := accepted[..|accepted| - 1];
      var c := accepted[|accepted| - 1];
      TreeWeights(n, prefix);
      WeightAfterAppend(Tree(n, prefix), c.src, Edge(c.weight, c.dest));
      WeightAfterAppend(AsWrittenTree(n, prefix), c.src, Edge(c.weight, c.src));
    }
  }

  /** The total weight of the result, summed over its lists, is twice the
      weight of the accepted edges, as written and corrected alike. */
  lemma KruskalWeight(g: Graph)
    requires WellFormed(g)
    ensures TotalWeight(KruskalMst(g)) == 2 * AcceptedWeight(KruskalScan(g).accepted)
    ensures TotalWeight(KruskalMstAsWritten(g)) == 2 * AcceptedWeight(KruskalScan(g).accepted)
  {
    TreeWeights(Size(g), KruskalScan(g).accepted);
  }

  /** As written, every entry of the result points back at its own vertex. */
  lemma {:induction false} AsWrittenSelfLoops(n: nat, accepted: seq<Candidate>)
    requires InRange(n, accepted)
    ensures SelfLoopsOnly(AsWrittenTree(n, accepted))
  {
    if |accepted| > 0 {
      var prefix := accepted[..|accepted| - 1];
      var c := accepted[|accepted| - 1];
      AsWrittenSelfLoops(n, prefix);
      var prev := AsWrittenTree(n, prefix);
      var t := AsWrittenTree(n, accepted);
      forall u, j | 0 <= u < n && 0 <= j < |t.adj[u]|
        ensures t.adj[u][j].dest == u
      {
        if u != c.src {
          assert t.adj[u] == prev.adj[u];
        } else if j < |prev.adj[u]| {
          assert t.adj[u][j] == prev.adj[u][j];
        } else {
          assert t.adj[u] == prev.adj[u] + [Edge(c.weight, c.src), Edge(c.weight, c.src)];
        }
      }
    }
  }

  /** Every entry points back at its own vertex. */
  ghost predicate SelfLoopsOnly(t: Graph)
  {
    forall u, j :: 0 <= u < |t.adj| && 0 <= j < |t.adj[u]| ==> t.adj[u][j].dest == u
  }

  /** A graph of self-loops joins no two distinct vertices. */
  lemma SelfLoopsDisconnected(t: Graph, u: nat, v: nat)
    requires SelfLoopsOnly(t) && u != v
    ensures !Reachable(t, u, v)
  {
    forall a: nat, b: nat | a in {u} && Adjacent(t, a, b)
      ensures b in {u}
    {
      var j :| 0 <= j < |t.adj[a]| && t.adj[a][j].dest == b;
    }
    if Reachable(t, u, v) {
      ClosedHoldsReachable(t, u, v, {u});
    }
  }

  /** As written, the result joins no two distinct vertices. */
  lemma AsWrittenDisconnected(g: Graph, u: nat, v: nat)
    requires WellFormed(g) && u != v
    ensures !Reachable(KruskalMstAsWritten(g), u, v)
  {
    AsWrittenSelfLoops(Size(g), KruskalScan(g).accepted);
    SelfLoopsDisconnected(KruskalMstAsWritten(g), u, v);
  }

  /** Two cities joined by one road of weight 5. */
  function TwoCities(): (g: Graph)
    ensures WellFormed(g) && Size(g) == 2 && Symmetric(g)
  {
    Build(2, false, [(0, Edge(5, 1))])
  }

  lemma TwoCitiesConnected()
    ensures forall v :: 0 <= v < Size(TwoCities()) ==> Reachable(TwoCities(), 0, v)
  {
    var g := TwoCities();
    var roads := [(0, Edge(5, 1))];
    assert roads[..0] == [];
    assert g == AppendEdge(NewGraph(2, false), 0, Edge(5, 1));
    assert g.adj[0] == [Edge(5, 1)];
    assert g.adj[0][0].dest == 1;
    assert IsWalk(g, [0, 1]);
    ReachableRefl(g, 0);
  }

  /** On two connected cities the result as written leaves them apart,
      while the corrected result joins them. */
  lemma AsWrittenCounterexample()
    ensures Reachable(TwoCities(), 0, 1)
    ensures !Reachable(KruskalMstAsWritten(TwoCities()), 0, 1)
    ensures Reachable(KruskalMst(TwoCities()), 0, 1)
  {
    TwoCitiesConnected();
    AsWrittenDisconnected(TwoCities(), 0, 1);
    KruskalSpans(TwoCities());
  }
}
