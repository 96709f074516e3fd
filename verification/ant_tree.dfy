/** The case of trabalhos/uri_1135_colonia_de_formigas/main.cpp as the
    problem gives it: the line of hill i + 1 names a hill before it, so the
    tunnels form a tree hanging from hill 0. In such a tree a walk that
    repeats no hill has the length of the tree path, so every query prints
    the length of the tree path between its two hills. */
module AntTree {
  import opened AntColony
  import opened Seqs

  /** Every line names a hill before the one it joins. */
  predicate Tree(links: seq<Link>)
  {
    forall i :: 0 <= i < |links| ==> 0 <= links[i].0 <= i
  }

  function Parent(links: seq<Link>, v: int): (p: int)
    requires Tree(links) && 1 <= v <= |links|
    ensures 0 <= p < v
  {
    links[v - 1].0
  }

  /** The length of the tunnel from hill v to its parent, as the search
      reads it. */
  function Len(links: seq<Link>, v: int): int
    requires 1 <= v <= |links|
  {
    Narrow(links[v - 1].1)
  }

  /** The length of the way from hill v up to hill 0. */
  function Height(links: seq<Link>, v: int): int
    requires Tree(links) && 0 <= v <= |links|
    decreases v
  {
    if v == 0 then 0 else Height(links, Parent(links, v)) + Len(links, v)
  }

  /** Hill x hangs below hill a, or is a. */
  predicate Below(links: seq<Link>, x: int, a: int)
    requires Tree(links) && 0 <= x <= |links|
    decreases x
  {
    x == a || (x > a && x >= 1 && Below(links, Parent(links, x), a))
  }

  lemma {:induction false} BelowAbove(links: seq<Link>, x: int, a: int)
    requires Tree(links) && 0 <= x <= |links| && Below(links, x, a)
    ensures a <= x
    decreases x
  {
    if x != a {
      BelowAbove(links, Parent(links, x), a);
    }
  }

  lemma {:induction false} BelowParent(links: seq<Link>, x: int, c: int)
    requires Tree(links) && 0 <= x <= |links| && 1 <= c <= |links| && Below(links, x, c)
    ensures Below(links, x, Parent(links, c))
    decreases x
  {
    if x != c {
      BelowParent(links, Parent(links, x), c);
    }
  }

  /** The lowest hill both hills hang below: the two climb towards hill 0,
      the higher numbered first, until they meet. */
  function Meet(links: seq<Link>, a: int, b: int): (m: int)
    requires Tree(links) && 0 <= a <= |links| && 0 <= b <= |links|
    ensures 0 <= m <= a && m <= b
    ensures Below(links, a, m) && Below(links, b, m)
    decreases a + b
  {
    if a == b then a
    else if a > b then Meet(links, Parent(links, a), b)
    else Meet(links, a, Parent(links, b))
  }

  /** The length of the tree path between two hills. */
  function Distance(links: seq<Link>, a: int, b: int): int
    requires Tree(links) && 0 <= a <= |links| && 0 <= b <= |links|
  {
    Height(links, a) + Height(links, b) - 2 * Height(links, Meet(links, a, b))
  }

  lemma {:induction false} MeetBelow(links: seq<Link>, a: int, y: int)
    requires Tree(links) && 0 <= a <= |links| && 0 <= y <= |links| && Below(links, a, y)
    ensures Meet(links, a, y) == y
    decreases a
  {
    if a != y {
      BelowAbove(links, Parent(links, a), y);
      MeetBelow(links, Parent(links, a), y);
    }
  }

  lemma {:induction false} MeetUp(links: seq<Link>, a: int, b: int)
    requires Tree(links) && 0 <= a <= |links| && 1 <= b <= |links| && !Below(links, a, b)
    ensures Meet(links, a, b) == Meet(links, a, Parent(links, b))
    decreases a + b
  {
    if a > b {
      MeetUp(links, Parent(links, a), b);
    }
  }

  /** A hill and its parent cross the edge of the subtree of x only when
      the hill is x. */
  lemma Cross(links: seq<Link>, u: int, x: int)
    requires Tree(links) && 1 <= u <= |links| && Below(links, u, x) != Below(links, Parent(links, u), x)
    ensures u == x
  {
  }

  /** In the tree every line joins a hill and its parent, with the length
      of the line of the hill. */
  lemma JoinsTree(links: seq<Link>, v: int, e: Entry)
    requires Tree(links) && Joins(links, v, e)
    ensures || (1 <= v <= |links| && e.1 == Parent(links, v) && e.0 == links[v - 1].1)
            || (1 <= e.1 <= |links| && v == Parent(links, e.1) && e.0 == links[e.1 - 1].1)
  {
    var i :| 0 <= i < |links| && e.0 == links[i].1 &&
      ((v == i + 1 && e.1 == links[i].0) || (v == links[i].0 && e.1 == i + 1));
    if v == i + 1 && e.1 == links[i].0 {
      assert 1 <= v <= |links| && e.1 == Parent(links, v) && e.0 == links[v - 1].1;
    } else {
      assert 1 <= e.1 <= |links| && v == Parent(links, e.1) && e.0 == links[e.1 - 1].1;
    }
  }

  /** Every tunnel of the case joins a hill and its parent, with the length
      of the line of the hill. */
  lemma TreeEdge(links: seq<Link>, v: int, e: Entry)
    requires Tree(links) && 0 <= v <= |links| && Listed(Build(|links| + 1, links), v, e)
    ensures || (1 <= v <= |links| && e.1 == Parent(links, v) && e.0 == links[v - 1].1)
            || (1 <= e.1 <= |links| && v == Parent(links, e.1) && e.0 == links[e.1 - 1].1)
  {
    assert Joins(links, v, e);
    JoinsTree(links, v, e);
  }

  lemma ParentEdges(links: seq<Link>, v: int)
    requires Tree(links) && 1 <= v <= |links|
    ensures var adj := Build(|links| + 1, links);
            && Listed(adj, v, (links[v - 1].1, Parent(links, v)))
            && Listed(adj, Parent(links, v), (links[v - 1].1, v))
  {
    var adj: AdjList := Build(|links| + 1, links);
    assert Joins(links, v, (links[v - 1].1, Parent(links, v)));
    assert Joins(links, Parent(links, v), (links[v - 1].1, v));
  }

  lemma TreeNoSelfLoops(links: seq<Link>)
    requires Tree(links)
    ensures NoSelfLoops(Build(|links| + 1, links))
  {
    var adj: AdjList := Build(|links| + 1, links);
    forall v: int, j: int | 0 <= v < |adj| && 0 <= j < |adj[v]|
      ensures adj[v][j].1 != v
    {
      assert Listed(adj, v, adj[v][j]);
      TreeEdge(links, v, adj[v][j]);
    }
  }

  /** The tunnel e from hill v joins v to its parent or to one of its
      children, with the length of the line of the lower hill. */
  predicate TreeStep(links: seq<Link>, v: int, e: Entry)
    requires Tree(links)
  {
    || (1 <= v <= |links| && e.1 == Parent(links, v) && e.0 == links[v - 1].1)
    || (1 <= e.1 <= |links| && v == Parent(links, e.1) && e.0 == links[e.1 - 1].1)
  }

  /** Lists for the hills of the tree in which every tunnel is a tree edge. */
  ghost predicate Hangs(links: seq<Link>, adj: AdjList)
  {
    && Tree(links) && |adj| == |links| + 1
    && forall v, e :: Listed(adj, v, e) ==> TreeStep(links, v, e)
  }

  lemma BuildHangs(links: seq<Link>)
    requires Tree(links)
    ensures Hangs(links, Build(|links| + 1, links))
  {
    var adj: AdjList := Build(|links| + 1, links);
    forall v, e | Listed(adj, v, e)
      ensures TreeStep(links, v, e)
    {
      TreeEdge(links, v, e);
    }
  }

  /** A walk that starts inside the subtree of x and ends outside it, or
      the other way round, passes through both x and its parent. */
  lemma {:induction false} Crossing(links: seq<Link>, adj: AdjList, hills: seq<int>, lengths: seq<int>, x: int)
    requires Hangs(links, adj) && Walk(adj, hills, lengths) && 1 <= x <= |links|
    requires Below(links, hills[0], x) != Below(links, Last(hills), x)
    ensures x in hills && Parent(links, x) in hills
    decreases |hills|
  {
    var n := |hills| - 1;
    var front, steps := hills[..n], lengths[..n - 1];
    assert Walk(adj, front, steps);
    var c, b := hills[n - 1], hills[n];
    if Below(links, hills[0], x) != Below(links, c, x) {
      Crossing(links, adj, front, steps, x);
    } else {
      assert Listed(adj, c, (lengths[n - 1], b));
      if 1 <= c <= |links| && b == Parent(links, c) {
        Cross(links, c, x);
      } else {
        Cross(links, b, x);
      }
    }
  }

  /** Climbing from c to its parent b lengthens the way from a hill below c. */
  lemma PathUp(links: seq<Link>, a: int, c: int)
    requires Tree(links) && 0 <= a <= |links| && 1 <= c <= |links| && Below(links, a, c)
    ensures Distance(links, a, Parent(links, c)) == Distance(links, a, c) + Len(links, c)
  {
    BelowParent(links, a, c);
    MeetBelow(links, a, c);
    MeetBelow(links, a, Parent(links, c));
  }

  /** Stepping down from c to its child b lengthens the way from a hill not
      below b. */
  lemma PathDown(links: seq<Link>, a: int, b: int)
    requires Tree(links) && 0 <= a <= |links| && 1 <= b <= |links| && !Below(links, a, b)
    ensures Distance(links, a, b) == Distance(links, a, Parent(links, b)) + Len(links, b)
  {
    MeetUp(links, a, b);
  }

  /** One more tunnel at the end of a walk that repeats no hill moves its
      end one tree edge away from the start. */
  lemma StepLength(links: seq<Link>, adj: AdjList, hills: seq<int>, lengths: seq<int>, b: int, l: int)
    requires Hangs(links, adj) && Walk(adj, hills, lengths) && b !in hills
    requires Listed(adj, Last(hills), (l, b))
    ensures 0 <= b <= |links|
    ensures Distance(links, hills[0], b) == Distance(links, hills[0], Last(hills)) + Narrow(l)
  {
    var a, c := hills[0], Last(hills);
    if 1 <= c <= |links| && b == Parent(links, c) && l == links[c - 1].1 {
      if !Below(links, a, c) {
        Crossing(links, adj, hills, lengths, c);
        assert false;
      }
      PathUp(links, a, c);
    } else {
      assert 1 <= b <= |links| && c == Parent(links, b) && l == links[b - 1].1;
      if Below(links, a, b) {
        if Below(links, c, b) {
          BelowAbove(links, c, b);
          assert false;
        }
        Crossing(links, adj, hills, lengths, b);
        assert false;
      }
      PathDown(links, a, b);
    }
  }

  /** In the tree a walk that repeats no hill is the tree path: its length
      is the distance between its ends. */
  lemma {:induction false} PathLength(links: seq<Link>, adj: AdjList, hills: seq<int>, lengths: seq<int>)
    requires Hangs(links, adj) && Walk(adj, hills, lengths) && Distinct(hills)
    ensures Total(lengths) == Distance(links, hills[0], Last(hills))
    decreases |hills|
  {
    if |hills| == 1 {
      assert Meet(links, hills[0], hills[0]) == hills[0];
    } else {
      var n := |hills| - 1;
      var front, steps := hills[..n], lengths[..n - 1];
      assert Walk(adj, front, steps);
      assert Distinct(front);
      PathLength(links, adj, front, steps);
      assert Total(lengths) == Total(steps) + Narrow(lengths[n - 1]);
      assert hills[n] !in front;
      StepLength(links, adj, front, steps, hills[n], lengths[n - 1]);
    }
  }

  lemma WalkPrepend(adj: AdjList, u: int, l: int, hills: seq<int>, lengths: seq<int>)
    requires Walk(adj, hills, lengths) && 0 <= u < |adj| && Listed(adj, u, (l, hills[0]))
    ensures Walk(adj, [u] + hills, [l] + lengths)
  {
    var h, s := [u] + hills, [l] + lengths;
    forall i | 0 <= i < |s|
      ensures Listed(adj, h[i], (s[i], h[i + 1]))
    {
      if i > 0 {
        assert s[i] == lengths[i - 1] && h[i] == hills[i - 1] && h[i + 1] == hills[i];
      }
    }
  }

  lemma WalkJoin(adj: AdjList, h1: seq<int>, l1: seq<int>, h2: seq<int>, l2: seq<int>)
    requires Walk(adj, h1, l1) && Walk(adj, h2, l2) && Last(h1) == h2[0]
    ensures Walk(adj, h1 + h2[1..], l1 + l2) && (h1 + h2[1..])[0] == h1[0] && Last(h1 + h2[1..]) == Last(h2)
  {
    var h, s := h1 + h2[1..], l1 + l2;
    forall i | 0 <= i < |s|
      ensures Listed(adj, h[i], (s[i], h[i + 1]))
    {
      if i >= |l1| {
        var k := i - |l1|;
        assert s[i] == l2[k] && h[i] == h2[k] && h[i + 1] == h2[k + 1];
      }
    }
  }

  /** A tunnel in front of a walk gives a walk from its other end. */
  lemma ReachBefore(adj: AdjList, u: int, l: int, w: int, t: int)
    requires 0 <= u < |adj| && Listed(adj, u, (l, w)) && Reachable(adj, w, t)
    ensures Reachable(adj, u, t)
  {
    var hills, lengths :| Walk(adj, hills, lengths) && hills[0] == w && Last(hills) == t;
    WalkPrepend(adj, u, l, hills, lengths);
    assert Last([u] + hills) == t;
  }

  /** Walks that meet at a hill join into one. */
  lemma ReachJoin(adj: AdjList, a: int, m: int, b: int)
    requires Reachable(adj, a, m) && Reachable(adj, m, b)
    ensures Reachable(adj, a, b)
  {
    var h1, l1 :| Walk(adj, h1, l1) && h1[0] == a && Last(h1) == m;
    var h2, l2 :| Walk(adj, h2, l2) && h2[0] == m && Last(h2) == b;
    WalkJoin(adj, h1, l1, h2, l2);
  }

  /** Every hill has a walk up to hill 0 and one down from it. */
  lemma {:induction false} Rooted(links: seq<Link>, v: int)
    requires Tree(links) && 0 <= v <= |links|
    ensures Reachable(Build(|links| + 1, links), v, 0)
    ensures Reachable(Build(|links| + 1, links), 0, v)
    decreases v
  {
    var adj: AdjList := Build(|links| + 1, links);
    if v == 0 {
      assert Walk(adj, [0], []);
    } else {
      var p := Parent(links, v);
      Rooted(links, p);
      ParentEdges(links, v);
      var l := links[v - 1].1;
      ReachBefore(adj, v, l, p, 0);
      assert Walk(adj, [p, v], [l]);
      ReachJoin(adj, 0, p, v);
    }
  }

  lemma Connected(links: seq<Link>, a: int, b: int)
    requires Tree(links) && 0 <= a <= |links| && 0 <= b <= |links|
    ensures Reachable(Build(|links| + 1, links), a, b)
  {
    Rooted(links, a);
    Rooted(links, b);
    ReachJoin(Build(|links| + 1, links), a, 0, b);
  }

  /** What a query finds in the tree: a walk between the two hills exists,
      and the simple walk the search returns has the tree-path length. */
  lemma TreeAnswer(links: seq<Link>, src: int, dest: int, out: Option<int>, hills: seq<int>, lengths: seq<int>)
    requires Tree(links) && 0 <= src <= |links| && 0 <= dest <= |links|
    requires var adj := Build(|links| + 1, links);
             && (out.Some? ==> Walk(adj, hills, lengths) && hills[0] == src && Last(hills) == dest && Total(lengths) == out.value)
             && (out.Some? && NoSelfLoops(adj) ==> Distinct(hills))
             && (out.Some? <==> Reachable(adj, src, dest))
    ensures out == Some(Distance(links, src, dest))
  {
    TreeNoSelfLoops(links);
    Connected(links, src, dest);
    BuildHangs(links);
    PathLength(links, Build(|links| + 1, links), hills, lengths);
  }

  /** A query in range: the source and destination hills. */
  datatype Trip = Trip(src: int, dest: int)

  /** One case of `main`: the lists built from the size - 1 lines, then the
      search for every query. A query is answered exactly when a walk joins
      its hills, with 0 when they are one hill; when the lines form the tree
      the problem promises, every query is answered with the length of the
      tree path between its hills. */
  method Case(size: nat, links: seq<Link>, queries: seq<Trip>) returns (answers: seq<Option<int>>)
    requires size >= 1 && |links| == size - 1 && LinksIn(size, links)
    requires forall k :: 0 <= k < |queries| ==> 0 <= queries[k].src < size && 0 <= queries[k].dest < size
    ensures |answers| == |queries|
    ensures forall k :: 0 <= k < |queries| ==>
              (answers[k].Some? <==> Reachable(Build(size, links), queries[k].src, queries[k].dest))
    ensures forall k :: 0 <= k < |queries| && queries[k].src == queries[k].dest ==> answers[k] == Some(0)
    ensures Tree(links) ==>
              forall k :: 0 <= k < |queries| ==> answers[k] == Some(Distance(links, queries[k].src, queries[k].dest))
  {
    var adj: AdjList := Build(size, links);
    BuildWellFormed(size, links);
    answers := [];
    for k := 0 to |queries|
      invariant |answers| == k
      invariant forall i :: 0 <= i < k ==>
                  (answers[i].Some? <==> Reachable(adj, queries[i].src, queries[i].dest))
      invariant forall i :: 0 <= i < k && queries[i].src == queries[i].dest ==> answers[i] == Some(0)
      invariant Tree(links) ==>
                  forall i :: 0 <= i < k ==> answers[i] == Some(Distance(links, queries[i].src, queries[i].dest))
    {
      var q := queries[k];
      var out, hills, lengths, expanded := Query(adj, q.src, q.dest);
      if Tree(links) {
        TreeAnswer(links, q.src, q.dest, out, hills, lengths);
      }
      answers := answers + [out];
    }
  }
}
