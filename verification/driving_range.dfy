/** The driver of trabalhos/uva_11857_driving_range/uva_11857.cpp: the
    Kruskal loop written out in `main`, which tracks the largest accepted
    weight (`minCarRange`) and reports it when size-1 edges were accepted,
    and the commented-out approach it replaced, which takes the largest
    weight found in the lists of `kruskalMST()` on a connected graph. */
module DrivingRange {
  import opened Graphs
  import opened Kruskal

  /** The weights of the accepted entries. */
  ghost function AcceptedWeights(accepted: seq<Candidate>): set<int>
  {
    set k | 0 <= k < |accepted| :: accepted[k].weight
  }

  /** `minCarRange`: 0 before the loop, then `std::max(minCarRange, weight)`
      at every accepted entry. It is the largest accepted weight, or 0 when
      that is larger or nothing was accepted. */
  function RunningMax(accepted: seq<Candidate>): (m: int)
    ensures m >= 0
    ensures forall k :: 0 <= k < |accepted| ==> accepted[k].weight <= m
    ensures m == 0 || m in AcceptedWeights(accepted)
  {
    if |accepted| == 0 then 0
    else
      var prev := RunningMax(accepted[..|accepted| - 1]);
      var w := accepted[|accepted| - 1].weight;
      assert prev == 0 || prev in AcceptedWeights(accepted) by {
        if prev != 0 {
          var k :| 0 <= k < |accepted| - 1 && accepted[..|accepted| - 1][k].weight == prev;
          assert accepted[k].weight == prev;
        }
      }
      if prev < w then w else prev
  }

  /** On a sorted list the running maximum is the weight of the last
      accepted entry (or 0 if that is negative): the bottleneck edge. */
  lemma {:induction false} RunningMaxSorted(accepted: seq<Candidate>)
    requires Sorted(accepted) && |accepted| >= 1
    ensures RunningMax(accepted) == if accepted[|accepted| - 1].weight < 0 then 0 else accepted[|accepted| - 1].weight
  {
    var last := accepted[|accepted| - 1].weight;
    forall k | 0 <= k < |accepted|
      ensures accepted[k].weight <= last
    {
      if k < |accepted| - 1 {
        assert Before(accepted[k], accepted[|accepted| - 1]);
      }
    }
  }

  /** The weights found in a graph's lists. */
  ghost function EntryWeights(adj: seq<seq<Edge>>): set<int>
  {
    set u, e | 0 <= u < |adj| && e in adj[u] :: e.weight
  }

  /** The inner loop of the commented-out approach over one list: the
      running value is replaced by every larger weight. */
  function ListMax(list: seq<Edge>, start: int): (m: int)
    ensures m >= start
    ensures forall e :: e in list ==> e.weight <= m
    ensures m == start || exists e :: e in list && e.weight == m
  {
    if |list| == 0 then start
    else
      var next := if list[0].weight > start then list[0].weight else start;
      var m := ListMax(list[1..], next);
      assert forall e :: e in list ==> e == list[0] || e in list[1..];
      m
  }

  /** The outer loop over the vertices, in index order. */
  function AdjMax(adj: seq<seq<Edge>>, start: int): (m: int)
    ensures m >= start
    ensures forall w :: w in EntryWeights(adj) ==> w <= m
    ensures m == start || m in EntryWeights(adj)
  {
    if |adj| == 0 then start
    else
      var m := AdjMax(adj[1..], ListMax(adj[0], start));
      assert forall u, e :: 0 <= u < |adj| && e in adj[u] ==> e.weight <= m by {
        forall u, e | 0 <= u < |adj| && e in adj[u]
          ensures e.weight <= m
        {
          if u > 0 {
            assert e in adj[1..][u - 1];
            assert e.weight in EntryWeights(adj[1..]);
          } else {
            assert ListMax(adj[0], start) <= m;
          }
        }
      }
      assert m == start || m in EntryWeights(adj) by {
        if m != start && m !in EntryWeights(adj[1..]) {
          var e :| e in adj[0] && e.weight == m;
        } else if m != start {
          var u, e :| 0 <= u < |adj[1..]| && e in adj[1..][u] && e.weight == m;
          assert e in adj[u + 1];
        }
      }
      m
  }

  /** The commented-out approach's `minCarRange`: the largest weight in the
      tree's lists, or 0. */
  function MaxEntryWeight(t: Graph): (m: int)
    ensures m >= 0
    ensures forall u, e :: 0 <= u < |t.adj| && e in t.adj[u] ==> e.weight <= m
    ensures m == 0 || m in EntryWeights(t.adj)
  {
    var m := AdjMax(t.adj, 0);
    assert forall u, e :: 0 <= u < |t.adj| && e in t.adj[u] ==> e.weight <= m by {
      forall u, e | 0 <= u < |t.adj| && e in t.adj[u]
        ensures e.weight <= m
      {
        assert e.weight in EntryWeights(t.adj);
      }
    }
    m
  }

  /** Appending an edge adds its weight to the weights found in the lists. */
  lemma EntryWeightsAppend(g: Graph, vertex: nat, edge: Edge)
    requires vertex < Size(g) && edge.dest < Size(g)
    ensures EntryWeights(AppendEdge(g, vertex, edge).adj) == EntryWeights(g.adj) + {edge.weight}
  {
    var h := AppendEdge(g, vertex, edge);
    forall w | w in EntryWeights(h.adj)
      ensures w in EntryWeights(g.adj) + {edge.weight}
    {
      var u, e :| 0 <= u < |h.adj| && e in h.adj[u] && e.weight == w;
      if e !in g.adj[u] {
        assert w == edge.weight;
      }
    }
    forall w | w in EntryWeights(g.adj) + {edge.weight}
      ensures w in EntryWeights(h.adj)
    {
      if w == edge.weight {
        assert edge in h.adj[vertex];
      } else {
        var u, e :| 0 <= u < |g.adj| && e in g.adj[u] && e.weight == w;
        assert e in h.adj[u];
      }
    }
  }

  /** Both trees hold exactly the accepted weights in their lists. */
  lemma TreeEntryWeights(n: nat, accepted: seq<Candidate>)
    requires InRange(n, accepted)
    ensures EntryWeights(Tree(n, accepted).adj) == AcceptedWeights(accepted)
    ensures EntryWeights(AsWrittenTree(n, accepted).adj) == AcceptedWeights(accepted)
  {
    FixedTreeWeights(n, accepted);
    AsWrittenTreeWeights(n, accepted);
  }

  /** The corrected tree, one list entry per accepted edge at each end. */
  lemma {:induction false} FixedTreeWeights(n: nat, accepted: seq<Candidate>)
    requires InRange(n, accepted)
    ensures EntryWeights(Tree(n, accepted).adj) == AcceptedWeights(accepted)
  {
    if |accepted| == 0 {
      assert EntryWeights(NewGraph(n, false).adj) == {};
    } else {
      var prev := accepted[..|accepted| - 1];
      var c := accepted[|accepted| - 1];
      FixedTreeWeights(n, prev);
      EntryWeightsAppend(Tree(n, prev), c.src, Edge(c.weight, c.dest));
      AcceptedWeightsAppend(prev, c);
      assert accepted == prev + [c];
    }
  }

  /** The tree as written, whose entries point back at their own vertex. */
  lemma {:induction false} AsWrittenTreeWeights(n: nat, accepted: seq<Candidate>)
    requires InRange(n, accepted)
    ensures EntryWeights(AsWrittenTree(n, accepted).adj) == AcceptedWeights(accepted)
  {
    if |accepted| == 0 {
      assert EntryWeights(NewGraph(n, false).adj) == {};
    } else {
      var prev := accepted[..|accepted| - 1];
      var c := accepted[|accepted| - 1];
      AsWrittenTreeWeights(n, prev);
      EntryWeightsAppend(AsWrittenTree(n, prev), c.src, Edge(c.weight, c.src));
      AcceptedWeightsAppend(prev, c);
      assert accepted == prev + [c];
    }
  }

  lemma AcceptedWeightsAppend(accepted: seq<Candidate>, c: Candidate)
    ensures AcceptedWeights(accepted + [c]) == AcceptedWeights(accepted) + {c.weight}
  {
    var next := accepted + [c];
    forall w | w in AcceptedWeights(next)
      ensures w in AcceptedWeights(accepted) + {c.weight}
    {
      var k :| 0 <= k < |next| && next[k].weight == w;
      if k < |accepted| {
        assert accepted[k].weight == w;
      }
    }
    forall w | w in AcceptedWeights(accepted)
      ensures w in AcceptedWeights(next)
    {
      var k :| 0 <= k < |accepted| && accepted[k].weight == w;
      assert next[k].weight == w;
    }
    assert next[|accepted|].weight == c.weight;
  }

  /** The running maximum equals the largest weight found in either tree's
      lists. */
  lemma MaxAgrees(n: nat, accepted: seq<Candidate>)
    requires InRange(n, accepted)
    ensures RunningMax(accepted) == MaxEntryWeight(Tree(n, accepted))
    ensures RunningMax(accepted) == MaxEntryWeight(AsWrittenTree(n, accepted))
  {
    TreeEntryWeights(n, accepted);
    var m := RunningMax(accepted);
    var t := MaxEntryWeight(Tree(n, accepted));
    var a := MaxEntryWeight(AsWrittenTree(n, accepted));
    assert m in AcceptedWeights(accepted) ==> m <= t && m <= a;
    assert t in AcceptedWeights(accepted) ==> t <= m;
    assert a in AcceptedWeights(accepted) ==> a <= m;
  }

  /** What `main` prints for one test case. */
  datatype Verdict = Range(range: int) | Impossible

  /** The inline Kruskal of `main`: the range is reported when
      `graphSize - 1` entries were accepted, and IMPOSSIBLE otherwise. */
  function Drive(g: Graph): (v: Verdict)
    requires WellFormed(g)
    ensures v.Range? ==> v.range >= 0
    ensures v.Range? ==> forall k :: 0 <= k < |KruskalScan(g).accepted| ==> KruskalScan(g).accepted[k].weight <= v.range
  {
    var r := KruskalScan(g);
    if |r.accepted| == SizeMinusOne(Size(g)) then Range(RunningMax(r.accepted)) else Impossible
  }

  /** The accepted entries come out sorted. */
  lemma AcceptedSorted(g: Graph)
    requires WellFormed(g)
    ensures Sorted(KruskalScan(g).accepted)
  {
  }

  /** A range is reported exactly when the road graph is connected and has
      a city. */
  lemma DriveConnected(g: Graph)
    requires WellFormed(g) && Symmetric(g)
    ensures Drive(g).Range? <==> Size(g) >= 1 && forall v :: 0 <= v < Size(g) ==> Reachable(g, 0, v)
  {
    if Size(g) >= 1 {
      DriveCities(g);
    } else {
      DriveNoCity(g);
    }
  }

  lemma DriveCities(g: Graph)
    requires WellFormed(g) && Symmetric(g) && Size(g) >= 1
    ensures Drive(g).Range? <==> forall v :: 0 <= v < Size(g) ==> Reachable(g, 0, v)
  {
    AllAcceptedIffConnected(g);
  }

  lemma DriveNoCity(g: Graph)
    requires WellFormed(g) && Size(g) == 0
    ensures Drive(g) == Impossible
  {
    assert |KruskalScan(g).accepted| == 0;
  }

  /** The reported range is the largest weight in the lists of
      `kruskalMST()`, as the commented-out approach computes it, and it is
      the weight of the last accepted entry: the bottleneck of the tree. */
  lemma DriveRange(g: Graph)
    requires WellFormed(g)
    ensures Drive(g).Range? ==> Drive(g).range == MaxEntryWeight(KruskalMstAsWritten(g))
    ensures Drive(g).Range? ==> Drive(g).range == MaxEntryWeight(KruskalMst(g))
    ensures Drive(g).Range? && Size(g) >= 2 ==>
              var last := KruskalScan(g).accepted[Size(g) - 2].weight;
              Drive(g).range == if last < 0 then 0 else last
  {
    DriveRangeTrees(g);
    DriveRangeLast(g);
  }

  lemma DriveRangeTrees(g: Graph)
    requires WellFormed(g)
    ensures Drive(g).Range? ==> Drive(g).range == MaxEntryWeight(KruskalMstAsWritten(g))
    ensures Drive(g).Range? ==> Drive(g).range == MaxEntryWeight(KruskalMst(g))
  {
    MaxAgrees(Size(g), KruskalScan(g).accepted);
  }

  lemma DriveRangeLast(g: Graph)
    requires WellFormed(g)
    ensures Drive(g).Range? && Size(g) >= 2 ==>
              var last := KruskalScan(g).accepted[Size(g) - 2].weight;
              Drive(g).range == if last < 0 then 0 else last
  {
    if Drive(g).Range? && Size(g) >= 2 {
      var a := KruskalScan(g).accepted;
      assert |a| == Size(g) - 1;
      AcceptedSorted(g);
      RunningMaxSorted(a);
    }
  }
}
