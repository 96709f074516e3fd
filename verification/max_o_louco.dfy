/** The fuel-priced route of provas/prova2/max_o_louco/main.cpp: the road
    matrix read from the input, the Dijkstra of `shortest_path` whose hop
    from u to v costs length(u, v) * price(u) and which ignores roads longer
    than the tank, the walk back along the parent links, and the replay
    that buys fuel along the route. */
module MaxOLouco {

  // The road matrix.

  /** A road as read: 1-based endpoints and a length. */
  datatype Road = Road(src: int, sink: int, length: int)

  /** `graph[u][v]`: the length of the road between u and v, -1 if none. */
  type Matrix = seq<seq<int>>

  predicate IsMatrix(m: Matrix, n: nat)
  {
    |m| == n && forall i :: 0 <= i < n ==> |m[i]| == n
  }

  predicate RoadsFit(n: nat, roads: seq<Road>)
  {
    forall k :: 0 <= k < |roads| ==> 1 <= roads[k].src <= n && 1 <= roads[k].sink <= n
  }

  /** The road joins the 0-based cities a and b. */
  predicate Joins(r: Road, a: nat, b: nat)
  {
    (r.src - 1 == a && r.sink - 1 == b) || (r.src - 1 == b && r.sink - 1 == a)
  }

  /** `graph[src][sink] = dist; graph[sink][src] = dist;` */
  function SetRoad(m: Matrix, a: nat, b: nat, d: int): (r: Matrix)
    requires IsMatrix(m, |m|) && a < |m| && b < |m|
    ensures IsMatrix(r, |m|)
    ensures r[a][b] == d && r[b][a] == d
    ensures forall i, j :: 0 <= i < |m| && 0 <= j < |m| && !(i == a && j == b) && !(i == b && j == a) ==> r[i][j] == m[i][j]
  {
    var first := m[a := m[a][b := d]];
    first[b := first[b][a := d]]
  }

  /** The matrix after reading the roads in order, converting the 1-based
      endpoints to 0-based indices. */
  function BuildMatrix(n: nat, roads: seq<Road>): (m: Matrix)
    requires RoadsFit(n, roads)
    ensures IsMatrix(m, n)
  {
    if |roads| == 0 then seq(n, _ => seq(n, _ => -1))
    else
      var r := roads[|roads| - 1];
      SetRoad(BuildMatrix(n, roads[..|roads| - 1]), r.src - 1, r.sink - 1, r.length)
  }

  /** Road k is the last road read that joins a and b. */
  predicate LastJoin(roads: seq<Road>, a: nat, b: nat, k: int)
  {
    0 <= k < |roads| && Joins(roads[k], a, b) && forall j :: k < j < |roads| ==> !Joins(roads[j], a, b)
  }

  /** The matrix is symmetric. */
  lemma {:induction false} BuildMatrixSymmetric(n: nat, roads: seq<Road>, a: nat, b: nat)
    requires RoadsFit(n, roads) && a < n && b < n
    ensures BuildMatrix(n, roads)[a][b] == BuildMatrix(n, roads)[b][a]
  {
    if |roads| > 0 {
      BuildMatrixSymmetric(n, roads[..|roads| - 1], a, b);
    }
  }

  /** Entry (a, b) is -1 when no road joins a and b. */
  lemma {:induction false} BuildMatrixUnjoined(n: nat, roads: seq<Road>, a: nat, b: nat)
    requires RoadsFit(n, roads) && a < n && b < n
    requires forall k :: 0 <= k < |roads| ==> !Joins(roads[k], a, b)
    ensures BuildMatrix(n, roads)[a][b] == -1
  {
    if |roads| > 0 {
      var prefix := roads[..|roads| - 1];
      assert forall k :: 0 <= k < |prefix| ==> prefix[k] == roads[k];
      BuildMatrixUnjoined(n, prefix, a, b);
    }
  }

  /** Entry (a, b) is the length of the last road read that joins a and b. */
  lemma {:induction false} BuildMatrixLastJoin(n: nat, roads: seq<Road>, a: nat, b: nat, k: int)
    requires RoadsFit(n, roads) && a < n && b < n
    requires LastJoin(roads, a, b, k)
    ensures BuildMatrix(n, roads)[a][b] == roads[k].length
  {
    var prefix := roads[..|roads| - 1];
    if k < |roads| - 1 {
      assert prefix[k] == roads[k];
      assert forall j :: k < j < |prefix| ==> prefix[j] == roads[j];
      assert LastJoin(prefix, a, b, k);
      BuildMatrixLastJoin(n, prefix, a, b, k);
    }
  }

  /** Entry (a, b) is -1 when no road joins a and b, and otherwise the
      length of the last road read that joins them, so the matrix is
      symmetric. */
  lemma BuildMatrixEntries(n: nat, roads: seq<Road>, a: nat, b: nat)
    requires RoadsFit(n, roads) && a < n && b < n
    ensures BuildMatrix(n, roads)[a][b] == BuildMatrix(n, roads)[b][a]
    ensures (forall k :: 0 <= k < |roads| ==> !Joins(roads[k], a, b)) ==> BuildMatrix(n, roads)[a][b] == -1
    ensures forall k :: LastJoin(roads, a, b, k) ==> BuildMatrix(n, roads)[a][b] == roads[k].length
  {
    BuildMatrixSymmetric(n, roads, a, b);
    if forall k :: 0 <= k < |roads| ==> !Joins(roads[k], a, b) {
      BuildMatrixUnjoined(n, roads, a, b);
    }
    forall k | LastJoin(roads, a, b, k)
      ensures BuildMatrix(n, roads)[a][b] == roads[k].length
    {
      BuildMatrixLastJoin(n, roads, a, b, k);
    }
  }

  // The Dijkstra of `shortest_path`.

  /** Lengths are -1 (no road) or non-negative, and prices are
      non-negative. */
  predicate Input(m: Matrix, cost: seq<int>)
  {
    && IsMatrix(m, |m|) && |cost| == |m|
    && (forall u, v :: 0 <= u < |m| && 0 <= v < |m| ==> m[u][v] >= -1)
    && (forall u :: 0 <= u < |m| ==> cost[u] >= 0)
  }

  /** A road the car may take: it exists and is no longer than the tank. */
  predicate Usable(m: Matrix, t: int, u: nat, v: nat)
    requires IsMatrix(m, |m|) && u < |m| && v < |m|
  {
    m[u][v] != -1 && m[u][v] <= t
  }

  /** The price of the hop from u to v: its length at u's fuel price. */
  function Weight(m: Matrix, cost: seq<int>, u: nat, v: nat): int
    requires IsMatrix(m, |m|) && |cost| == |m| && u < |m| && v < |m|
  {
    m[u][v] * cost[u]
  }

  lemma WeightNonNegative(m: Matrix, cost: seq<int>, u: nat, v: nat)
    requires Input(m, cost) && u < |m| && v < |m| && m[u][v] != -1
    ensures Weight(m, cost, u, v) >= 0
  {
    var len, price := m[u][v], cost[u];
    assert len >= 0 && price >= 0;
  }

  /** A route from a to b over usable roads. */
  ghost predicate IsRoute(m: Matrix, t: int, p: seq<nat>, a: nat, b: nat)
    requires IsMatrix(m, |m|)
  {
    && |p| >= 1 && p[0] == a && p[|p| - 1] == b
    && (forall k :: 0 <= k < |p| ==> p[k] < |m|)
    && (forall k :: 0 <= k < |p| - 1 ==> Usable(m, t, p[k], p[k + 1]))
  }

  ghost predicate Connected(m: Matrix, t: int, a: nat, b: nat)
    requires IsMatrix(m, |m|)
  {
    exists p :: IsRoute(m, t, p, a, b)
  }

  /** The sum of the hop prices along a route. */
  ghost function RouteCost(m: Matrix, cost: seq<int>, p: seq<nat>): int
    requires IsMatrix(m, |m|) && |cost| == |m|
    requires forall k :: 0 <= k < |p| ==> p[k] < |m|
  {
    if |p| <= 1 then 0 else RouteCost(m, cost, p[..|p| - 1]) + Weight(m, cost, p[|p| - 2], p[|p| - 1])
  }

  /** `dist[v]`: INT_MAX ("not reached") or a cost. */
  datatype Dist = Inf | Fin(d: int)

  /** A priority-queue element (cost, vertex). */
  datatype Entry = Entry(d: int, v: nat)

  /** The order of std::pair<int, int>. */
  predicate EntryBefore(a: Entry, b: Entry)
  {
    a.d < b.d || (a.d == b.d && a.v <= b.v)
  }

  /** `q.top()` of the min-heap. */
  function MinEntry(q: seq<Entry>): (i: nat)
    requires |q| >= 1
    ensures i < |q|
    ensures forall k :: 0 <= k < |q| ==> EntryBefore(q[i], q[k])
  {
    if |q| == 1 then 0
    else
      var j := MinEntry(q[1..]);
      assert forall k :: 1 <= k < |q| ==> q[k] == q[1..][k - 1];
      if EntryBefore(q[0], q[1..][j]) then 0 else j + 1
  }

  /** The parent links. Besides the tables of the source, `stamp` records
      when each vertex was last improved; a parent has a smaller cost, or
      the same cost and an earlier stamp, so parent links never form a
      cycle. */
  ghost predicate Tables(m: Matrix, cost: seq<int>, t: int, src: nat, dist: seq<Dist>, prev: seq<int>, stamp: seq<nat>)
    requires Input(m, cost) && src < |m|
  {
    && |dist| == |m| && |prev| == |m| && |stamp| == |m|
    && dist[src] == Fin(0) && prev[src] == -1
    && (forall v :: 0 <= v < |m| && dist[v].Fin? ==> dist[v].d >= 0)
    && (forall v :: 0 <= v < |m| && v != src && dist[v].Fin? ==> prev[v] != -1)
    && (forall v :: 0 <= v < |m| && prev[v] != -1 ==> Link(m, cost, t, src, dist, prev, stamp, v))
  }

  /** The parent u of v: a usable road u-v, both reached, v's cost at least
      u's plus the hop, and u earlier in the (cost, stamp) order. */
  ghost predicate Link(m: Matrix, cost: seq<int>, t: int, src: nat, dist: seq<Dist>, prev: seq<int>, stamp: seq<nat>, v: nat)
    requires Input(m, cost) && |dist| == |m| && |prev| == |m| && |stamp| == |m| && v < |m|
  {
    && v != src && 0 <= prev[v] < |m|
    && var u := prev[v] as nat;
       && Usable(m, t, u, v) && dist[v].Fin? && dist[u].Fin?
       && dist[u].d + Weight(m, cost, u, v) <= dist[v].d
       && (dist[u].d < dist[v].d || stamp[u] < stamp[v])
  }

  /** Every usable road out of a reached u leads to a vertex whose cost is
      at most u's plus the hop. */
  ghost predicate Relaxed(m: Matrix, cost: seq<int>, t: int, dist: seq<Dist>, u: nat)
    requires Input(m, cost) && |dist| == |m| && u < |m| && dist[u].Fin?
  {
    forall v :: 0 <= v < |m| && Usable(m, t, u, v) ==> dist[v].Fin? && dist[v].d <= dist[u].d + Weight(m, cost, u, v)
  }

  /** Every reached vertex is still queued with its cost, or relaxed. */
  ghost predicate Pending(m: Matrix, cost: seq<int>, t: int, dist: seq<Dist>, queue: seq<Entry>)
    requires Input(m, cost) && |dist| == |m|
  {
    && (forall e :: e in queue ==> e.v < |m| && dist[e.v].Fin?)
    && (forall u :: 0 <= u < |m| && dist[u].Fin? ==> Entry(dist[u].d, u) in queue || Relaxed(m, cost, t, dist, u))
  }

  /** No cost went up: an unreached vertex may become reached and a cost
      may fall. */
  ghost predicate NoHigher(after: seq<Dist>, before: seq<Dist>)
  {
    && |after| == |before|
    && forall v :: 0 <= v < |after| ==> before[v].Inf? || (after[v].Fin? && after[v].d <= before[v].d)
  }

  /** The number of unreached vertices and the sum of the costs: the first
      falls, or stays while the second falls, whenever a cost improves. */
  function InfCount(dist: seq<Dist>): nat
  {
    if |dist| == 0 then 0 else InfCount(dist[..|dist| - 1]) + (if dist[|dist| - 1].Inf? then 1 else 0)
  }

  function FinSum(dist: seq<Dist>): int
  {
    if |dist| == 0 then 0 else FinSum(dist[..|dist| - 1]) + (if dist[|dist| - 1].Fin? then dist[|dist| - 1].d else 0)
  }

  lemma {:induction false} FinSumNonNegative(dist: seq<Dist>)
    requires forall v :: 0 <= v < |dist| && dist[v].Fin? ==> dist[v].d >= 0
    ensures FinSum(dist) >= 0
  {
    if |dist| > 0 {
      FinSumNonNegative(dist[..|dist| - 1]);
    }
  }

  lemma {:induction false} MeasureFalls(after: seq<Dist>, before: seq<Dist>)
    requires NoHigher(after, before)
    ensures InfCount(after) <= InfCount(before)
    ensures InfCount(after) == InfCount(before) ==> FinSum(after) <= FinSum(before)
    ensures after != before ==> InfCount(after) < InfCount(before) || FinSum(after) < FinSum(before)
  {
    if |after| > 0 {
      var a, b := after[..|after| - 1], before[..|before| - 1];
      MeasureFalls(a, b);
      if after != before && a == b {
        assert after[|after| - 1] != before[|before| - 1];
      }
    }
  }

  /** Improving v through u (`dist[v] = path; prev[v] = u;`) with a fresh
      stamp keeps the tables. */
  lemma ImproveKeeps(m: Matrix, cost: seq<int>, t: int, src: nat, dist: seq<Dist>, prev: seq<int>, stamp: seq<nat>,
                     clock: nat, u: nat, v: nat)
    requires Input(m, cost) && src < |m| && u < |m| && v < |m|
    requires Tables(m, cost, t, src, dist, prev, stamp) && (forall w :: 0 <= w < |m| ==> stamp[w] < clock)
    requires dist[u].Fin? && Usable(m, t, u, v)
    requires dist[v].Inf? || dist[v].d > dist[u].d + Weight(m, cost, u, v)
    ensures v != u && v != src
    ensures Tables(m, cost, t, src, dist[v := Fin(dist[u].d + Weight(m, cost, u, v))], prev[v := u], stamp[v := clock])
  {
    WeightNonNegative(m, cost, u, v);
    var d := dist[v := Fin(dist[u].d + Weight(m, cost, u, v))];
    var p := prev[v := u];
    var s := stamp[v := clock];
    forall w | 0 <= w < |m| && p[w] != -1
      ensures Link(m, cost, t, src, d, p, s, w)
    {
      if w != v {
        assert Link(m, cost, t, src, dist, prev, stamp, w);
        var x := prev[w] as nat;
        if x == v {
          WeightNonNegative(m, cost, v, w);
        }
      }
    }
  }

  /** What holds after trying the roads from u to 0..v-1. */
  ghost predicate RelaxInv(m: Matrix, cost: seq<int>, t: int, src: nat, u: nat, dist: seq<Dist>, queue: seq<Entry>,
                           v: nat, dist': seq<Dist>, prev': seq<int>, queue': seq<Entry>, stamp': seq<nat>, clock': nat)
    requires Input(m, cost) && src < |m| && u < |m| && |dist| == |m| && dist[u].Fin?
  {
    && v <= |m|
    && Tables(m, cost, t, src, dist', prev', stamp') && (forall w :: 0 <= w < |m| ==> stamp'[w] < clock')
    && (forall e :: e in queue' ==> e.v < |m| && dist'[e.v].Fin?)
    && NoHigher(dist', dist) && dist'[u] == dist[u]
    && (forall w :: 0 <= w < v && Usable(m, t, u, w) ==> dist'[w].Fin? && dist'[w].d <= dist[u].d + Weight(m, cost, u, w))
    && |queue'| >= |queue| && queue'[..|queue|] == queue
    && (forall w :: 0 <= w < |m| && dist'[w] != dist[w] ==> Improved(m, cost, t, u, dist, v, dist', prev', queue', w))
    && (|queue'| > |queue| ==> dist' != dist)
  }

  /** w improved through u: along a usable road, to u's cost plus the hop,
      with u as parent and the new cost queued. */
  ghost predicate Improved(m: Matrix, cost: seq<int>, t: int, u: nat, dist: seq<Dist>, v: nat,
                           dist': seq<Dist>, prev': seq<int>, queue': seq<Entry>, w: nat)
    requires Input(m, cost) && u < |m| && |dist| == |m| && dist[u].Fin?
    requires |dist'| == |m| && |prev'| == |m| && w < |m|
  {
    && w < v && Usable(m, t, u, w) && prev'[w] == u as int
    && dist'[w] == Fin(dist[u].d + Weight(m, cost, u, w))
    && Entry(dist'[w].d, w) in queue'
  }

  lemma RelaxSkip(m: Matrix, cost: seq<int>, t: int, src: nat, u: nat, dist: seq<Dist>, queue: seq<Entry>,
                  v: nat, dist': seq<Dist>, prev': seq<int>, queue': seq<Entry>, stamp': seq<nat>, clock': nat)
    requires Input(m, cost) && src < |m| && u < |m| && |dist| == |m| && dist[u].Fin? && v < |m|
    requires RelaxInv(m, cost, t, src, u, dist, queue, v, dist', prev', queue', stamp', clock')
    requires Usable(m, t, u, v) ==> dist'[v].Fin? && dist'[v].d <= dist'[u].d + Weight(m, cost, u, v)
    ensures RelaxInv(m, cost, t, src, u, dist, queue, v + 1, dist', prev', queue', stamp', clock')
  {
    forall w | 0 <= w < |m| && dist'[w] != dist[w]
      ensures Improved(m, cost, t, u, dist, v + 1, dist', prev', queue', w)
    {
      assert Improved(m, cost, t, u, dist, v, dist', prev', queue', w);
    }
  }

  lemma RelaxImprove(m: Matrix, cost: seq<int>, t: int, src: nat, u: nat, dist: seq<Dist>, queue: seq<Entry>,
                     v: nat, dist': seq<Dist>, prev': seq<int>, queue': seq<Entry>, stamp': seq<nat>, clock': nat,
                     d2: seq<Dist>, p2: seq<int>, q2: seq<Entry>, s2: seq<nat>, c2: nat)
    requires Input(m, cost) && src < |m| && u < |m| && |dist| == |m| && dist[u].Fin? && v < |m|
    requires RelaxInv(m, cost, t, src, u, dist, queue, v, dist', prev', queue', stamp', clock')
    requires Usable(m, t, u, v) && (dist'[v].Inf? || dist'[v].d > dist'[u].d + Weight(m, cost, u, v))
    requires d2 == dist'[v := Fin(dist'[u].d + Weight(m, cost, u, v))] && p2 == prev'[v := u as int]
    requires q2 == queue' + [Entry(dist'[u].d + Weight(m, cost, u, v), v)] && s2 == stamp'[v := clock'] && c2 == clock' + 1
    ensures RelaxInv(m, cost, t, src, u, dist, queue, v + 1, d2, p2, q2, s2, c2)
  {
    var path := dist'[u].d + Weight(m, cost, u, v);
    ImproveKeeps(m, cost, t, src, dist', prev', stamp', clock', u, v);
    assert dist[v].Inf? || dist[v].d > path by {
      assert dist'[v] == dist[v] || Improved(m, cost, t, u, dist, v, dist', prev', queue', v);
    }
    ImprovedStep(m, cost, t, u, dist, v, dist', prev', queue', d2, p2, q2);
    ImproveLower(dist, dist', d2, v, path);
    ImproveReaches(m, cost, t, u, dist, v, dist', d2);
    ImproveQueue(|m|, queue, queue', q2, dist', d2, v, path);
    assert d2[v] != dist[v];
  }

  /** Lowering the cost of v below the one it had before keeps every cost
      at or below its value when the relaxation started. */
  lemma ImproveLower(dist: seq<Dist>, dist': seq<Dist>, d2: seq<Dist>, v: nat, path: int)
    requires NoHigher(dist', dist) && v < |dist'|
    requires dist[v].Inf? || dist[v].d > path
    requires d2 == dist'[v := Fin(path)]
    ensures NoHigher(d2, dist)
  {
  }

  /** After lowering v's cost to the cost through u, the usable roads from
      u to 0..v are all relaxed. */
  lemma ImproveReaches(m: Matrix, cost: seq<int>, t: int, u: nat, dist: seq<Dist>, v: nat, dist': seq<Dist>, d2: seq<Dist>)
    requires Input(m, cost) && u < |m| && |dist| == |m| && dist[u].Fin? && v < |m| && |dist'| == |m|
    requires dist'[u] == dist[u]
    requires forall w :: 0 <= w < v && Usable(m, t, u, w) ==> dist'[w].Fin? && dist'[w].d <= dist[u].d + Weight(m, cost, u, w)
    requires d2 == dist'[v := Fin(dist'[u].d + Weight(m, cost, u, v))]
    ensures forall w :: 0 <= w < v + 1 && Usable(m, t, u, w) ==> d2[w].Fin? && d2[w].d <= dist[u].d + Weight(m, cost, u, w)
  {
  }

  /** Queueing v with its new cost keeps the old queue as a prefix and
      every queued vertex reached. */
  lemma ImproveQueue(n: nat, queue: seq<Entry>, queue': seq<Entry>, q2: seq<Entry>, dist': seq<Dist>, d2: seq<Dist>,
                     v: nat, path: int)
    requires |dist'| == n && v < n && |queue'| >= |queue| && queue'[..|queue|] == queue
    requires forall e :: e in queue' ==> e.v < n && dist'[e.v].Fin?
    requires d2 == dist'[v := Fin(path)] && q2 == queue' + [Entry(path, v)]
    ensures forall e :: e in q2 ==> e.v < n && d2[e.v].Fin?
    ensures |q2| >= |queue| && q2[..|queue|] == queue
  {
    assert q2[..|queue'|] == queue';
  }

  /** Improving v through u keeps every earlier improvement and adds v's. */
  lemma ImprovedStep(m: Matrix, cost: seq<int>, t: int, u: nat, dist: seq<Dist>, v: nat,
                     dist': seq<Dist>, prev': seq<int>, queue': seq<Entry>, d2: seq<Dist>, p2: seq<int>, q2: seq<Entry>)
    requires Input(m, cost) && u < |m| && |dist| == |m| && dist[u].Fin? && v < |m|
    requires |dist'| == |m| && |prev'| == |m| && dist'[u] == dist[u] && Usable(m, t, u, v)
    requires forall w :: 0 <= w < |m| && dist'[w] != dist[w] ==> Improved(m, cost, t, u, dist, v, dist', prev', queue', w)
    requires d2 == dist'[v := Fin(dist'[u].d + Weight(m, cost, u, v))] && p2 == prev'[v := u as int]
    requires q2 == queue' + [Entry(dist'[u].d + Weight(m, cost, u, v), v)]
    ensures forall w :: 0 <= w < |m| && d2[w] != dist[w] ==> Improved(m, cost, t, u, dist, v + 1, d2, p2, q2, w)
  {
    forall w | 0 <= w < |m| && d2[w] != dist[w]
      ensures Improved(m, cost, t, u, dist, v + 1, d2, p2, q2, w)
    {
      if w != v {
        assert Improved(m, cost, t, u, dist, v, dist', prev', queue', w);
      } else {
        assert q2[|queue'|] == Entry(d2[v].d, v);
      }
    }
  }

  /** One pass of the inner loop: the road from u to v is skipped when
      absent (-1); otherwise v improves when the road fits the tank and the
      cost through u is strictly lower. */
  method TryRoad(m: Matrix, cost: seq<int>, t: int, src: nat, u: nat, dist: seq<Dist>, queue: seq<Entry>, v: nat,
                 dist0: seq<Dist>, prev0: seq<int>, queue0: seq<Entry>, ghost stamp0: seq<nat>, ghost clock0: nat)
    returns (dist': seq<Dist>, prev': seq<int>, queue': seq<Entry>, ghost stamp': seq<nat>, ghost clock': nat)
    requires Input(m, cost) && src < |m| && u < |m| && |dist| == |m| && dist[u].Fin? && v < |m|
    requires RelaxInv(m, cost, t, src, u, dist, queue, v, dist0, prev0, queue0, stamp0, clock0)
    ensures RelaxInv(m, cost, t, src, u, dist, queue, v + 1, dist', prev', queue', stamp', clock')
  {
    dist', prev', queue', stamp', clock' := dist0, prev0, queue0, stamp0, clock0;
    if m[u][v] != -1 {
      var path := dist0[u].d + Weight(m, cost, u, v);
      if m[u][v] <= t && (dist0[v].Inf? || dist0[v].d > path) {
        dist' := dist0[v := Fin(path)];
        prev' := prev0[v := u as int];
        queue' := queue0 + [Entry(path, v)];
        stamp' := stamp0[v := clock0];
        clock' := clock0 + 1;
        RelaxImprove(m, cost, t, src, u, dist, queue, v, dist0, prev0, queue0, stamp0, clock0, dist', prev', queue', stamp', clock');
      } else {
        RelaxSkip(m, cost, t, src, u, dist, queue, v, dist0, prev0, queue0, stamp0, clock0);
      }
    } else {
      RelaxSkip(m, cost, t, src, u, dist, queue, v, dist0, prev0, queue0, stamp0, clock0);
    }
  }

  /** The loop of `Relax` over the roads from u to 0..n-1. */
  method TryRoads(m: Matrix, cost: seq<int>, t: int, src: nat, u: nat,
                  dist: seq<Dist>, prev: seq<int>, queue: seq<Entry>, ghost stamp: seq<nat>, ghost clock: nat)
    returns (dist': seq<Dist>, prev': seq<int>, queue': seq<Entry>, ghost stamp': seq<nat>, ghost clock': nat)
    requires Input(m, cost) && src < |m| && u < |m| && |dist| == |m| && dist[u].Fin?
    requires RelaxInv(m, cost, t, src, u, dist, queue, 0, dist, prev, queue, stamp, clock)
    ensures RelaxInv(m, cost, t, src, u, dist, queue, |m|, dist', prev', queue', stamp', clock')
  {
    dist', prev', queue', stamp', clock' := dist, prev, queue, stamp, clock;
    var n := |m|;
    var v := 0;
    while v < n
      invariant v <= n
      invariant RelaxInv(m, cost, t, src, u, dist, queue, v, dist', prev', queue', stamp', clock')
    {
      dist', prev', queue', stamp', clock' := TryRoad(m, cost, t, src, u, dist, queue, v, dist', prev', queue', stamp', clock');
      v := v + 1;
    }
  }

  /** The inner loop of `shortest_path`: every road out of u is tried, and
      v improves only along a usable road and only when the new cost is
      strictly lower. No cost goes up, u's cost stays, and afterwards u is
      relaxed. */
  method Relax(m: Matrix, cost: seq<int>, t: int, src: nat, u: nat,
               dist: seq<Dist>, prev: seq<int>, queue: seq<Entry>, ghost stamp: seq<nat>, ghost clock: nat)
    returns (dist': seq<Dist>, prev': seq<int>, queue': seq<Entry>, ghost stamp': seq<nat>, ghost clock': nat)
    requires Input(m, cost) && src < |m| && u < |m|
    requires Tables(m, cost, t, src, dist, prev, stamp) && (forall w :: 0 <= w < |m| ==> stamp[w] < clock)
    requires dist[u].Fin? && forall e :: e in queue ==> e.v < |m| && dist[e.v].Fin?
    ensures Tables(m, cost, t, src, dist', prev', stamp') && (forall w :: 0 <= w < |m| ==> stamp'[w] < clock')
    ensures forall e :: e in queue' ==> e.v < |m| && dist'[e.v].Fin?
    ensures NoHigher(dist', dist) && dist'[u] == dist[u]
    ensures Relaxed(m, cost, t, dist', u)
    ensures |queue'| >= |queue| && queue'[..|queue|] == queue
    ensures forall w :: 0 <= w < |m| && dist'[w] != dist[w] ==>
              && Usable(m, t, u, w) && prev'[w] == u as int
              && dist'[w] == Fin(dist[u].d + Weight(m, cost, u, w))
              && Entry(dist'[w].d, w) in queue'
    ensures |queue'| > |queue| ==> dist' != dist
  {
    RelaxStart(m, cost, t, src, u, dist, prev, queue, stamp, clock);
    dist', prev', queue', stamp', clock' := TryRoads(m, cost, t, src, u, dist, prev, queue, stamp, clock);
    RelaxDone(m, cost, t, src, u, dist, queue, dist', prev', queue', stamp', clock');
  }

  lemma RelaxStart(m: Matrix, cost: seq<int>, t: int, src: nat, u: nat,
                   dist: seq<Dist>, prev: seq<int>, queue: seq<Entry>, stamp: seq<nat>, clock: nat)
    requires Input(m, cost) && src < |m| && u < |m|
    requires Tables(m, cost, t, src, dist, prev, stamp) && (forall w :: 0 <= w < |m| ==> stamp[w] < clock)
    requires dist[u].Fin? && forall e :: e in queue ==> e.v < |m| && dist[e.v].Fin?
    ensures RelaxInv(m, cost, t, src, u, dist, queue, 0, dist, prev, queue, stamp, clock)
  {
    assert queue[..|queue|] == queue;
  }

  lemma RelaxDone(m: Matrix, cost: seq<int>, t: int, src: nat, u: nat, dist: seq<Dist>, queue: seq<Entry>,
                  dist': seq<Dist>, prev': seq<int>, queue': seq<Entry>, stamp': seq<nat>, clock': nat)
    requires Input(m, cost) && src < |m| && u < |m| && |dist| == |m| && dist[u].Fin?
    requires RelaxInv(m, cost, t, src, u, dist, queue, |m|, dist', prev', queue', stamp', clock')
    ensures Tables(m, cost, t, src, dist', prev', stamp') && (forall w :: 0 <= w < |m| ==> stamp'[w] < clock')
    ensures forall e :: e in queue' ==> e.v < |m| && dist'[e.v].Fin?
    ensures NoHigher(dist', dist) && dist'[u] == dist[u]
    ensures |queue'| >= |queue| && queue'[..|queue|] == queue
    ensures |queue'| > |queue| ==> dist' != dist
    ensures Relaxed(m, cost, t, dist', u)
    ensures forall w :: 0 <= w < |m| && dist'[w] != dist[w] ==>
              && Usable(m, t, u, w) && prev'[w] == u as int
              && dist'[w] == Fin(dist[u].d + Weight(m, cost, u, w))
              && Entry(dist'[w].d, w) in queue'
  {
    forall w | 0 <= w < |m| && dist'[w] != dist[w]
      ensures Usable(m, t, u, w) && prev'[w] == u as int && dist'[w] == Fin(dist[u].d + Weight(m, cost, u, w))
    {
      assert Improved(m, cost, t, u, dist, |m|, dist', prev', queue', w);
    }
  }

  /** Popping u and relaxing it keeps every reached vertex queued or
      relaxed. */
  lemma PopKeeps(m: Matrix, cost: seq<int>, t: int, dist: seq<Dist>, dist': seq<Dist>,
                 queue: seq<Entry>, i: nat, queue': seq<Entry>)
    requires Input(m, cost) && |dist| == |m| && i < |queue|
    requires Pending(m, cost, t, dist, queue)
    requires queue[i].v < |m| && dist[queue[i].v].Fin?
    requires var u := queue[i].v;
             && NoHigher(dist', dist) && dist'[u] == dist[u] && Relaxed(m, cost, t, dist', u)
    requires var rest := queue[..i] + queue[i + 1..];
             |queue'| >= |rest| && queue'[..|rest|] == rest
    requires forall e :: e in queue' ==> e.v < |m| && dist'[e.v].Fin?
    requires forall w :: 0 <= w < |m| && dist'[w] != dist[w] ==> Entry(dist'[w].d, w) in queue'
    ensures Pending(m, cost, t, dist', queue')
  {
    var u := queue[i].v;
    var rest := queue[..i] + queue[i + 1..];
    OthersStay(queue, i, queue');
    forall w | 0 <= w < |m| && dist'[w].Fin? && Entry(dist'[w].d, w) !in queue'
      ensures Relaxed(m, cost, t, dist', w)
    {
      if w != u {
        assert dist'[w] == dist[w];
        assert Relaxed(m, cost, t, dist, w);
      }
    }
  }

  /** Entries of other vertices survive the pop. */
  lemma OthersStay(queue: seq<Entry>, i: nat, queue': seq<Entry>)
    requires i < |queue|
    requires var rest := queue[..i] + queue[i + 1..];
             |queue'| >= |rest| && queue'[..|rest|] == rest
    ensures forall e :: e in queue && e.v != queue[i].v ==> e in queue'
  {
    var rest := queue[..i] + queue[i + 1..];
    forall e | e in queue && e.v != queue[i].v
      ensures e in queue'
    {
      var j :| 0 <= j < |queue| && queue[j] == e;
      if j < i {
        assert rest[j] == e;
        assert queue'[j] == e;
      } else {
        assert rest[j - 1] == e;
        assert queue'[j - 1] == e;
      }
    }
  }

  /** `shortest_path(graph, cost, src, T)`. Returns the parent links and
      the costs. The parent of every vertex is joined to it by a usable
      road; the start has none. Each cost is the least route cost from the
      start, and an unreached vertex has no route. */
  method ShortestPath(m: Matrix, cost: seq<int>, src: nat, t: int)
    returns (prev: seq<int>, dist: seq<Dist>, ghost stamp: seq<nat>)
    requires Input(m, cost) && src < |m|
    ensures Tables(m, cost, t, src, dist, prev, stamp)
    ensures |prev| == |m| && prev[src] == -1
    ensures forall v :: 0 <= v < |m| && prev[v] != -1 ==> 0 <= prev[v] < |m| && Usable(m, t, prev[v] as nat, v)
    ensures forall p, v: nat :: IsRoute(m, t, p, src, v) ==> dist[v].Fin? && dist[v].d <= RouteCost(m, cost, p)
    ensures forall v :: 0 <= v < |m| && dist[v].Fin? ==>
              IsRoute(m, t, Chain(m, cost, t, src, dist, prev, stamp, v), src, v) &&
              RouteCost(m, cost, Chain(m, cost, t, src, dist, prev, stamp, v)) == dist[v].d
    ensures forall v :: 0 <= v < |m| ==> (dist[v].Fin? <==> Connected(m, t, src, v))
  {
    var n := |m|;
    prev := seq(n, _ => -1);
    dist := seq(n, v => if v == src then Fin(0) else Inf);
    stamp := seq(n, _ => 0);
    ghost var clock: nat := 1;
    var queue := [Entry(0, src)];
    FinSumNonNegative(dist);
    while |queue| > 0
      invariant Tables(m, cost, t, src, dist, prev, stamp) && (forall w :: 0 <= w < n ==> stamp[w] < clock)
      invariant Pending(m, cost, t, dist, queue)
      decreases InfCount(dist), FinSum(dist), |queue|
    {
      var i := MinEntry(queue);
      var u := queue[i].v;
      var rest := queue[..i] + queue[i + 1..];
      assert forall e :: e in rest ==> e in queue;
      ghost var before := dist;
      dist, prev, rest, stamp, clock := Relax(m, cost, t, src, u, dist, prev, rest, stamp, clock);
      PopKeeps(m, cost, t, before, dist, queue, i, rest);
      MeasureFalls(dist, before);
      FinSumNonNegative(dist);
      queue := rest;
    }
    ShortestFinal(m, cost, t, src, dist, prev, stamp);
  }

  /** The walk back from v along the parent links, read from the start. */
  ghost function Chain(m: Matrix, cost: seq<int>, t: int, src: nat, dist: seq<Dist>, prev: seq<int>, stamp: seq<nat>, v: nat): (p: seq<nat>)
    requires Input(m, cost) && src < |m| && Tables(m, cost, t, src, dist, prev, stamp)
    requires v < |m| && dist[v].Fin?
    ensures IsRoute(m, t, p, src, v)
    ensures RouteCost(m, cost, p) <= dist[v].d
    decreases dist[v].d, stamp[v]
  {
    if prev[v] == -1 then [v]
    else
      assert Link(m, cost, t, src, dist, prev, stamp, v);
      var u := prev[v] as nat;
      var p := Chain(m, cost, t, src, dist, prev, stamp, u) + [v];
      assert p[..|p| - 1] == Chain(m, cost, t, src, dist, prev, stamp, u);
      p
  }

  /** Once every reached vertex is relaxed, no route beats the costs. */
  lemma {:induction false} RelaxedBound(m: Matrix, cost: seq<int>, t: int, src: nat, dist: seq<Dist>, p: seq<nat>, v: nat)
    requires Input(m, cost) && src < |m| && |dist| == |m| && dist[src] == Fin(0)
    requires forall u :: 0 <= u < |m| && dist[u].Fin? ==> Relaxed(m, cost, t, dist, u)
    requires IsRoute(m, t, p, src, v)
    ensures dist[v].Fin? && dist[v].d <= RouteCost(m, cost, p)
  {
    if |p| > 1 {
      var q := p[..|p| - 1];
      RelaxedBound(m, cost, t, src, dist, q, q[|q| - 1]);
      assert Relaxed(m, cost, t, dist, q[|q| - 1]);
    }
  }

  lemma ShortestFinal(m: Matrix, cost: seq<int>, t: int, src: nat, dist: seq<Dist>, prev: seq<int>, stamp: seq<nat>)
    requires Input(m, cost) && src < |m|
    requires Tables(m, cost, t, src, dist, prev, stamp) && Pending(m, cost, t, dist, [])
    ensures forall v :: 0 <= v < |m| && prev[v] != -1 ==> 0 <= prev[v] < |m| && Usable(m, t, prev[v] as nat, v)
    ensures forall p, v: nat :: IsRoute(m, t, p, src, v) ==> dist[v].Fin? && dist[v].d <= RouteCost(m, cost, p)
    ensures forall v :: 0 <= v < |m| && dist[v].Fin? ==>
              IsRoute(m, t, Chain(m, cost, t, src, dist, prev, stamp, v), src, v) &&
              RouteCost(m, cost, Chain(m, cost, t, src, dist, prev, stamp, v)) == dist[v].d
    ensures forall v :: 0 <= v < |m| ==> (dist[v].Fin? <==> Connected(m, t, src, v))
  {
    forall v | 0 <= v < |m| && prev[v] != -1
      ensures 0 <= prev[v] < |m| && Usable(m, t, prev[v] as nat, v)
    {
      assert Link(m, cost, t, src, dist, prev, stamp, v);
    }
    forall p, v: nat | IsRoute(m, t, p, src, v)
      ensures dist[v].Fin? && dist[v].d <= RouteCost(m, cost, p)
    {
      RelaxedBound(m, cost, t, src, dist, p, v);
    }
    forall v | 0 <= v < |m|
      ensures dist[v].Fin? <==> Connected(m, t, src, v)
    {
      if dist[v].Fin? {
        var p := Chain(m, cost, t, src, dist, prev, stamp, v);
        RelaxedBound(m, cost, t, src, dist, p, v);
      }
      if Connected(m, t, src, v) {
        var p :| IsRoute(m, t, p, src, v);
        RelaxedBound(m, cost, t, src, dist, p, v);
      }
    }
    forall v | 0 <= v < |m| && dist[v].Fin?
      ensures RouteCost(m, cost, Chain(m, cost, t, src, dist, prev, stamp, v)) == dist[v].d
    {
      RelaxedBound(m, cost, t, src, dist, Chain(m, cost, t, src, dist, prev, stamp, v), v);
    }
  }

  // Walking back along the parent links.

  /** The `while (v != -1)` loop of `main`: pushes v and moves to its
      parent. The stack is written top first; it ends holding the route
      from the start to the target, each vertex the parent of the next. */
  method Reconstruct(m: Matrix, cost: seq<int>, t: int, src: nat, dist: seq<Dist>, prev: seq<int>, ghost stamp: seq<nat>,
                     target: nat) returns (stack: seq<nat>)
    requires Input(m, cost) && src < |m| && Tables(m, cost, t, src, dist, prev, stamp)
    requires target < |m| && dist[target].Fin?
    ensures IsRoute(m, t, stack, src, target)
    ensures Linked(prev, stack)
    ensures stack == Chain(m, cost, t, src, dist, prev, stamp, target)
  {
    ghost var goal := Chain(m, cost, t, src, dist, prev, stamp, target);
    ChainLinks(m, cost, t, src, dist, prev, stamp, target);
    var v: int := target;
    stack := [];
    while v != -1
      invariant |stack| <= |goal| && stack == goal[|goal| - |stack|..]
      invariant v != -1 ==> |stack| < |goal| && v == goal[|goal| - |stack| - 1] as int
      invariant v == -1 ==> |stack| == |goal|
      decreases |goal| - |stack|
    {
      ghost var j := |goal| - |stack| - 1;
      stack := [v] + stack;
      assert stack == goal[j..];
      if j == 0 {
        assert v == src;
      } else {
        assert prev[goal[j]] == goal[j - 1] as int;
      }
      v := prev[v];
    }
  }

  /** Each vertex of the sequence is the parent of the next. */
  ghost predicate Linked(prev: seq<int>, p: seq<nat>)
  {
    forall k :: 1 <= k < |p| ==> p[k] < |prev| && prev[p[k]] == p[k - 1] as int
  }

  /** One step back along the parent links: the root's chain is itself,
      and any other chain is its parent's chain extended, the parent coming
      earlier in the (cost, stamp) order. */
  lemma ChainStep(m: Matrix, cost: seq<int>, t: int, src: nat, dist: seq<Dist>, prev: seq<int>, stamp: seq<nat>, v: nat)
    requires Input(m, cost) && src < |m| && Tables(m, cost, t, src, dist, prev, stamp)
    requires v < |m| && dist[v].Fin?
    ensures prev[v] == -1 ==> Chain(m, cost, t, src, dist, prev, stamp, v) == [v]
    ensures prev[v] != -1 ==>
              && 0 <= prev[v] < |m| && dist[prev[v]].Fin?
              && Chain(m, cost, t, src, dist, prev, stamp, v) == Chain(m, cost, t, src, dist, prev, stamp, prev[v]) + [v]
              && (dist[prev[v]].d < dist[v].d || (dist[prev[v]].d == dist[v].d && stamp[prev[v]] < stamp[v]))
  {
    if prev[v] != -1 {
      assert Link(m, cost, t, src, dist, prev, stamp, v);
      WeightNonNegative(m, cost, prev[v] as nat, v);
    }
  }

  /** Along a chain each vertex is the parent of the next. */
  lemma {:induction false} ChainLinks(m: Matrix, cost: seq<int>, t: int, src: nat, dist: seq<Dist>, prev: seq<int>, stamp: seq<nat>, v: nat)
    requires Input(m, cost) && src < |m| && Tables(m, cost, t, src, dist, prev, stamp)
    requires v < |m| && dist[v].Fin?
    ensures Linked(prev, Chain(m, cost, t, src, dist, prev, stamp, v))
    decreases dist[v].d, stamp[v]
  {
    ChainStep(m, cost, t, src, dist, prev, stamp, v);
    if prev[v] != -1 {
      var u := prev[v] as nat;
      ChainLinks(m, cost, t, src, dist, prev, stamp, u);
      var q := Chain(m, cost, t, src, dist, prev, stamp, u);
      var p := Chain(m, cost, t, src, dist, prev, stamp, v);
      assert q[|q| - 1] == u;
      assert Linked(prev, q);
      forall k | 1 <= k < |p|
        ensures p[k] < |prev| && prev[p[k]] == p[k - 1] as int
      {
        if k < |q| {
          assert p[k] == q[k] && p[k - 1] == q[k - 1];
        } else {
          assert p[k] == v && p[k - 1] == u;
        }
      }
    }
  }

  // The refuelling replay.

  /** Every city of the route exists. */
  predicate OnMap(m: Matrix, route: seq<nat>)
  {
    forall k :: 0 <= k < |route| ==> route[k] < |m|
  }

  /** The tank level (`partial_t`) and the money spent (`cost_total`). */
  datatype Tank = Tank(level: int, spent: int)

  /** How a top-up that would overflow the tank is priced. As written,
      `fuel = T - partial_t` is taken after the road's fuel was already
      added, a non-positive amount; as evidently intended, it is the fuel
      that still fits. */
  datatype Clamp = AsWritten | Intended

  /** The lookahead loop, standing at `route[j]`: while the route goes on
      and the price `cost[x]` where the driver stands is below the price at
      `route[j]`, buy at x the fuel for the next road, filling the tank to T
      at most. */
  function Lookahead(m: Matrix, cost: seq<int>, t: int, clamp: Clamp, x: nat, route: seq<nat>, j: nat, tank: Tank): (r: Tank)
    requires IsMatrix(m, |m|) && |cost| == |m| && x < |m| && OnMap(m, route) && j < |route|
    ensures Drivable(m, t, route) && tank.level <= t ==> tank.level <= r.level <= t
    decreases |route| - j
  {
    if j == |route| - 1 || !(cost[x] < cost[route[j]]) then tank
    else
      var fuel := m[route[j]][route[j + 1]];
      var level := tank.level + fuel;
      var next :=
        if level <= t then Tank(level, tank.spent + fuel * cost[x])
        else if clamp == AsWritten then Tank(t, tank.spent + (t - level) * cost[x])
        else Tank(t, tank.spent + (t - tank.level) * cost[x]);
      Lookahead(m, cost, t, clamp, x, route, j + 1, next)
  }

  /** Some road of the route from index i on is longer than the tank. */
  ghost predicate TooLong(m: Matrix, t: int, route: seq<nat>, i: nat)
    requires IsMatrix(m, |m|) && OnMap(m, route)
  {
    exists k :: i <= k < |route| - 1 && m[route[k]][route[k + 1]] > t
  }

  /** A road longer than the tank lies ahead of index i exactly when the
      next road is one or one lies ahead of index i + 1. */
  lemma TooLongStep(m: Matrix, t: int, route: seq<nat>, i: nat)
    requires IsMatrix(m, |m|) && OnMap(m, route) && i < |route| - 1
    ensures TooLong(m, t, route, i) <==> m[route[i]][route[i + 1]] > t || TooLong(m, t, route, i + 1)
  {
    if TooLong(m, t, route, i) && m[route[i]][route[i + 1]] <= t {
      var k :| i <= k < |route| - 1 && m[route[k]][route[k + 1]] > t;
      assert k > i;
    }
  }

  /** Every road of the route has a length in [0, T]. */
  ghost predicate Drivable(m: Matrix, t: int, route: seq<nat>)
    requires IsMatrix(m, |m|) && OnMap(m, route)
  {
    forall k :: 0 <= k < |route| - 1 ==> 0 <= m[route[k]][route[k + 1]] <= t
  }

  /** The total length of the roads of the route from index i on. */
  function Length(m: Matrix, route: seq<nat>, i: nat): int
    requires IsMatrix(m, |m|) && OnMap(m, route)
    decreases |route| - i
  {
    if i + 1 >= |route| then 0 else m[route[i]][route[i + 1]] + Length(m, route, i + 1)
  }

  datatype Outcome = Aborted | Arrived(tank: Tank)

  /** The replay loop standing at `route[i]`: a road longer than T aborts;
      when the tank holds less than the road needs, exactly the shortfall is
      bought at the current price and the lookahead may buy more; then the
      road's fuel is used. It aborts exactly when some road ahead is longer
      than the tank. */
  function Drive(m: Matrix, cost: seq<int>, t: int, clamp: Clamp, route: seq<nat>, i: nat, tank: Tank): (r: Outcome)
    requires IsMatrix(m, |m|) && |cost| == |m| && OnMap(m, route) && i < |route|
    ensures r.Aborted? <==> TooLong(m, t, route, i)
    decreases |route| - i
  {
    if i == |route| - 1 then Arrived(tank)
    else
      var u := route[i];
      var len := m[u][route[i + 1]];
      TooLongStep(m, t, route, i);
      if len > t then Aborted
      else
        var filled :=
          if tank.level < len then Lookahead(m, cost, t, clamp, u, route, i + 1, Tank(len, tank.spent + (len - tank.level) * cost[u]))
          else tank;
        Drive(m, cost, t, clamp, route, i + 1, Tank(filled.level - len, filled.spent))
  }

  /** `main`'s replay of a route: the tank starts full (`partial_t = T`)
      and nothing is spent yet; an aborted replay prints -1. */
  function Replay(m: Matrix, cost: seq<int>, t: int, clamp: Clamp, route: seq<nat>): (r: int)
    requires IsMatrix(m, |m|) && |cost| == |m| && OnMap(m, route) && |route| >= 1
    ensures TooLong(m, t, route, 0) ==> r == -1
  {
    match Drive(m, cost, t, clamp, route, 0, Tank(t, 0))
    case Aborted => -1
    case Arrived(tank) => tank.spent
  }

  /** Along a route whose roads fit the tank, the replay arrives and the
      tank level stays within [0, T]. */
  lemma {:induction false} DriveLevel(m: Matrix, cost: seq<int>, t: int, clamp: Clamp, route: seq<nat>, i: nat, tank: Tank)
    requires IsMatrix(m, |m|) && |cost| == |m| && OnMap(m, route) && i < |route|
    requires Drivable(m, t, route) && 0 <= tank.level <= t
    ensures Drive(m, cost, t, clamp, route, i, tank).Arrived?
    ensures 0 <= Drive(m, cost, t, clamp, route, i, tank).tank.level <= t
    decreases |route| - i
  {
    if i < |route| - 1 {
      var u := route[i];
      var len := m[u][route[i + 1]];
      var start := Tank(len, tank.spent + (len - tank.level) * cost[u]);
      var filled := if tank.level < len then Lookahead(m, cost, t, clamp, u, route, i + 1, start) else tank;
      DriveLevel(m, cost, t, clamp, route, i + 1, Tank(filled.level - len, filled.spent));
    }
  }

  /** When the tank already holds enough for the rest of the route, nothing
      is bought: the replay arrives with the fuel left over and spends
      nothing more. */
  lemma {:induction false} DriveFree(m: Matrix, cost: seq<int>, t: int, clamp: Clamp, route: seq<nat>, i: nat, tank: Tank)
    requires IsMatrix(m, |m|) && |cost| == |m| && OnMap(m, route) && i < |route|
    requires Drivable(m, t, route) && Length(m, route, i) <= tank.level
    ensures Drive(m, cost, t, clamp, route, i, tank) == Arrived(Tank(tank.level - Length(m, route, i), tank.spent))
    decreases |route| - i
  {
    if i < |route| - 1 {
      LengthNonNegative(m, t, route, i + 1);
      DriveFree(m, cost, t, clamp, route, i + 1, Tank(tank.level - m[route[i]][route[i + 1]], tank.spent));
    }
  }

  lemma {:induction false} LengthNonNegative(m: Matrix, t: int, route: seq<nat>, i: nat)
    requires IsMatrix(m, |m|) && OnMap(m, route) && Drivable(m, t, route)
    ensures Length(m, route, i) >= 0
    decreases |route| - i
  {
    if i + 1 < |route| {
      LengthNonNegative(m, t, route, i + 1);
    }
  }

  /** With the intended clamp, the lookahead charges exactly the fuel it
      adds to the tank, at x's price. */
  lemma {:induction false} LookaheadPaysForFuel(m: Matrix, cost: seq<int>, t: int, x: nat, route: seq<nat>, j: nat, tank: Tank)
    requires IsMatrix(m, |m|) && |cost| == |m| && x < |m| && OnMap(m, route) && j < |route|
    ensures var r := Lookahead(m, cost, t, Intended, x, route, j, tank);
            r.spent - tank.spent == (r.level - tank.level) * cost[x]
    decreases |route| - j
  {
    if j < |route| - 1 && cost[x] < cost[route[j]] {
      var fuel := m[route[j]][route[j + 1]];
      var level := tank.level + fuel;
      var next := if level <= t then Tank(level, tank.spent + fuel * cost[x])
                  else Tank(t, tank.spent + (t - tank.level) * cost[x]);
      LookaheadPaysForFuel(m, cost, t, x, route, j + 1, next);
      var r := Lookahead(m, cost, t, Intended, x, route, j + 1, next);
      assert next.spent - tank.spent == (next.level - tank.level) * cost[x];
      assert (r.level - next.level) * cost[x] + (next.level - tank.level) * cost[x] == (r.level - tank.level) * cost[x];
    }
  }

  /** As written, a clamp charges for fuel that never enters the tank: with
      the tank full at 10 of 10 and a 10-long road ahead, the lookahead
      refunds 10 units at x's price although the level does not change. */
  lemma LookaheadAsWrittenCounterexample()
    ensures var m := [[-1, 10, -1], [10, -1, 10], [-1, 10, -1]];
            var r := Lookahead(m, [1, 2, 1], 10, AsWritten, 0, [0, 1, 2], 1, Tank(10, 10));
            && r == Tank(10, 0)
            && r.spent - 10 != (r.level - 10) * 1
  {
  }

  /** With the intended clamp and non-negative prices, the money spent
      never falls along a route whose roads fit the tank. */
  lemma {:induction false} DriveSpends(m: Matrix, cost: seq<int>, t: int, route: seq<nat>, i: nat, tank: Tank)
    requires Input(m, cost) && OnMap(m, route) && i < |route|
    requires Drivable(m, t, route) && 0 <= tank.level <= t
    ensures Drive(m, cost, t, Intended, route, i, tank).Arrived?
    ensures Drive(m, cost, t, Intended, route, i, tank).tank.spent >= tank.spent
    decreases |route| - i
  {
    DriveLevel(m, cost, t, Intended, route, i, tank);
    if i < |route| - 1 {
      var u := route[i];
      var len := m[u][route[i + 1]];
      var start := Tank(len, tank.spent + (len - tank.level) * cost[u]);
      var filled := if tank.level < len then Lookahead(m, cost, t, Intended, u, route, i + 1, start) else tank;
      if tank.level < len {
        LookaheadPaysForFuel(m, cost, t, u, route, i + 1, start);
        NonNegativeProduct(len - tank.level, cost[u]);
        NonNegativeProduct(filled.level - start.level, cost[u]);
      }
      DriveSpends(m, cost, t, route, i + 1, Tank(filled.level - len, filled.spent));
    }
  }

  lemma NonNegativeProduct(a: int, b: int)
    requires a >= 0 && b >= 0
    ensures a * b >= 0
  {
  }

  /** A route whose roads together fit in the full tank costs nothing. */
  lemma ReplayFree(m: Matrix, cost: seq<int>, t: int, clamp: Clamp, route: seq<nat>)
    requires IsMatrix(m, |m|) && |cost| == |m| && OnMap(m, route) && |route| >= 1
    requires Drivable(m, t, route) && Length(m, route, 0) <= t
    ensures Replay(m, cost, t, clamp, route) == 0
  {
    DriveFree(m, cost, t, clamp, route, 0, Tank(t, 0));
  }

  /** The four cities in a line of the example below, each road 10 long. */
  function Line(): (m: Matrix)
    ensures IsMatrix(m, 4)
  {
    [[-1, 10, -1, -1], [10, -1, 10, -1], [-1, 10, -1, 10], [-1, -1, 10, -1]]
  }

  /** With a 10-litre tank and prices 1, 1, 2, 1 along the line, the car
      must buy 10 litres at city 2 and 10 at city 3: 30 in all. As written,
      the lookahead at city 2 refunds what it cannot fit, and the replay
      reports 20. */
  lemma ReplayAsWrittenCounterexample()
    ensures Replay(Line(), [1, 1, 2, 1], 10, AsWritten, [0, 1, 2, 3]) == 20
  {
    var m, cost, route := Line(), [1, 1, 2, 1], [0, 1, 2, 3];
    assert Lookahead(m, cost, 10, AsWritten, 1, route, 2, Tank(10, 10)) == Tank(10, 0);
    assert Drive(m, cost, 10, AsWritten, route, 2, Tank(0, 0)) == Arrived(Tank(0, 20));
  }

  /** The same trip with the intended lookahead pays for every unit bought. */
  lemma ReplayIntendedExample()
    ensures Replay(Line(), [1, 1, 2, 1], 10, Intended, [0, 1, 2, 3]) == 30
  {
    var m, cost, route := Line(), [1, 1, 2, 1], [0, 1, 2, 3];
    assert Lookahead(m, cost, 10, Intended, 1, route, 2, Tank(10, 10)) == Tank(10, 10);
    assert Drive(m, cost, 10, Intended, route, 2, Tank(0, 10)) == Arrived(Tank(0, 30));
  }


  // The driver.

  /** Roads read with non-negative lengths give a matrix of lengths or -1. */
  lemma {:induction false} BuildMatrixInput(n: nat, roads: seq<Road>, cost: seq<int>)
    requires RoadsFit(n, roads) && |cost| == n
    requires forall k :: 0 <= k < |roads| ==> roads[k].length >= 0
    requires forall u :: 0 <= u < n ==> cost[u] >= 0
    ensures Input(BuildMatrix(n, roads), cost)
  {
    if |roads| > 0 {
      BuildMatrixInput(n, roads[..|roads| - 1], cost);
    }
  }

  /** The roads of a route are usable, so their lengths lie in [0, T]. */
  lemma RouteDrivable(m: Matrix, cost: seq<int>, t: int, p: seq<nat>, a: nat, b: nat)
    requires Input(m, cost) && IsRoute(m, t, p, a, b)
    ensures OnMap(m, p) && Drivable(m, t, p)
  {
  }

  /** One test case of `main`: build the matrix, run the Dijkstra from city
      0, print 0 for a single city and -1 when the last city has no parent;
      otherwise walk the parents back from the last city and replay the
      route. The answer is -1 exactly when no route fits the tank, and
      otherwise the replay of a cheapest route; with the intended clamp it
      is never negative. */
  method Solve(n: nat, roads: seq<Road>, t: int, cost: seq<int>, clamp: Clamp) returns (answer: int, route: seq<nat>)
    requires n >= 1 && |cost| == n && RoadsFit(n, roads)
    requires forall k :: 0 <= k < |roads| ==> roads[k].length >= 0
    requires forall u :: 0 <= u < n ==> cost[u] >= 0
    ensures n == 1 ==> answer == 0
    ensures n > 1 && !Connected(BuildMatrix(n, roads), t, 0, n - 1) ==> answer == -1
    ensures n > 1 && Connected(BuildMatrix(n, roads), t, 0, n - 1) ==>
              && IsRoute(BuildMatrix(n, roads), t, route, 0, n - 1)
              && (forall p :: IsRoute(BuildMatrix(n, roads), t, p, 0, n - 1) ==>
                    RouteCost(BuildMatrix(n, roads), cost, route) <= RouteCost(BuildMatrix(n, roads), cost, p))
              && OnMap(BuildMatrix(n, roads), route)
              && answer == Replay(BuildMatrix(n, roads), cost, t, clamp, route)
              && (clamp == Intended ==> answer >= 0)
  {
    var m := BuildMatrix(n, roads);
    BuildMatrixInput(n, roads, cost);
    var prev, dist, stamp := ShortestPath(m, cost, 0, t);
    route := [];
    if n == 1 {
      answer := 0;
    } else if prev[n - 1] == -1 {
      assert !dist[n - 1].Fin?;
      answer := -1;
    } else {
      assert Link(m, cost, t, 0, dist, prev, stamp, n - 1);
      route := Reconstruct(m, cost, t, 0, dist, prev, stamp, n - 1);
      RouteDrivable(m, cost, t, route, 0, n - 1);
      assert 0 <= t by {
        assert Usable(m, t, route[0], route[1]);
      }
      answer := Replay(m, cost, t, clamp, route);
      if clamp == Intended {
        DriveSpends(m, cost, t, route, 0, Tank(t, 0));
      }
    }
  }
}
