/** Union-find with union by rank and path compression, as in
    trabalhos/uva_11710_expensive_subway/DisjointSet.cpp (copied verbatim
    into trabalhos/uva_11857_driving_range/uva_11857.cpp), and its
    size-counting variants trabalhos/uva_10608_friends/DisjointSet.cpp and
    trabalhos/uva_10608_friends/uva_friends.go. The arrays become
    sequences and every operation returns the updated structure. */
module UnionFind {

  /** parent[x] and rank[x] of every element 0..n-1. */
  datatype Forest = Forest(parent: seq<nat>, rank: seq<nat>)

  /** Parents stay in range and ranks strictly increase towards the root,
      which is what makes `find` terminate. */
  predicate Valid(f: Forest)
  {
    && |f.rank| == |f.parent|
    && (forall x :: 0 <= x < |f.parent| ==> f.parent[x] < |f.parent|)
    && (forall x :: 0 <= x < |f.parent| && f.parent[x] != x ==> f.rank[x] < f.rank[f.parent[x]])
  }

  predicate IsRoot(f: Forest, x: nat)
  {
    x < |f.parent| && f.parent[x] == x
  }

  function MaxOf(s: seq<nat>): (m: nat)
    ensures forall i :: 0 <= i < |s| ==> s[i] <= m
  {
    if |s| == 0 then 0
    else
      var rest := MaxOf(s[1..]);
      assert forall i :: 1 <= i < |s| ==> s[i] == s[1..][i - 1];
      if s[0] > rest then s[0] else rest
  }

  /** The representative of x: the root reached by following parents. */
  function Rep(f: Forest, x: nat): (r: nat)
    requires Valid(f) && x < |f.parent|
    ensures IsRoot(f, r)
    ensures f.rank[x] <= f.rank[r]
    ensures IsRoot(f, x) ==> r == x
    decreases MaxOf(f.rank) - f.rank[x]
  {
    if f.parent[x] == x then x else Rep(f, f.parent[x])
  }

  ghost predicate SameSet(f: Forest, x: nat, y: nat)
    requires Valid(f) && x < |f.parent| && y < |f.parent|
  {
    Rep(f, x) == Rep(f, y)
  }

  /** The constructor: every element is its own parent, with rank 0. */
  function Init(n: nat): (f: Forest)
    ensures Valid(f) && |f.parent| == n
    ensures forall x :: 0 <= x < n ==> f.rank[x] == 0 && Rep(f, x) == x
  {
    Forest(seq(n, i => i), seq(n, i => 0))
  }

  /** Pointing x straight at its representative changes no element's
      representative. */
  lemma {:induction false} RepAfterRedirect(f: Forest, x: nat, y: nat)
    requires Valid(f) && x < |f.parent| && y < |f.parent|
    requires Valid(f.(parent := f.parent[x := Rep(f, x)]))
    ensures Rep(f.(parent := f.parent[x := Rep(f, x)]), y) == Rep(f, y)
    decreases MaxOf(f.rank) - f.rank[y]
  {
    var g := f.(parent := f.parent[x := Rep(f, x)]);
    if f.parent[y] != y && y != x {
      RepAfterRedirect(f, x, f.parent[y]);
    }
  }

  /** `find`: returns the representative of x and the structure after path
      compression, in which x points at its root and nothing else about the
      partition has changed. */
  function Find(f: Forest, x: nat): (r: (nat, Forest))
    requires Valid(f) && x < |f.parent|
    ensures r.0 == Rep(f, x)
    ensures Valid(r.1) && |r.1.parent| == |f.parent| && r.1.rank == f.rank
    ensures r.1.parent[x] == r.0
    ensures forall y :: 0 <= y < |f.parent| ==> Rep(r.1, y) == Rep(f, y)
    ensures forall y :: 0 <= y < |f.parent| ==> (IsRoot(r.1, y) <==> IsRoot(f, y))
    decreases MaxOf(f.rank) - f.rank[x]
  {
    if f.parent[x] == x then (x, f)
    else
      var (root, g) := Find(f, f.parent[x]);
      CompressKeeps(f, x, root, g);
      (root, g.(parent := g.parent[x := root]))
  }

  /** The step of path compression: once the parent's path is compressed,
      pointing x at the root it reached keeps every representative and
      every root. */
  lemma CompressKeeps(f: Forest, x: nat, root: nat, g: Forest)
    requires Valid(f) && x < |f.parent| && f.parent[x] != x
    requires root == Rep(f, f.parent[x])
    requires Valid(g) && |g.parent| == |f.parent| && g.rank == f.rank
    requires forall y :: 0 <= y < |f.parent| ==> Rep(g, y) == Rep(f, y)
    requires forall y :: 0 <= y < |f.parent| ==> (IsRoot(g, y) <==> IsRoot(f, y))
    ensures root == Rep(f, x)
    ensures Valid(g.(parent := g.parent[x := root]))
    ensures forall y :: 0 <= y < |f.parent| ==> Rep(g.(parent := g.parent[x := root]), y) == Rep(f, y)
    ensures forall y :: 0 <= y < |f.parent| ==> (IsRoot(g.(parent := g.parent[x := root]), y) <==> IsRoot(f, y))
  {
    var h := g.(parent := g.parent[x := root]);
    assert Rep(g, x) == root;
    assert Valid(h);
    forall y | 0 <= y < |f.parent|
      ensures Rep(h, y) == Rep(f, y)
    {
      RepAfterRedirect(g, x, y);
    }
  }

  /** Attaching root a under root b moves exactly a's set into b's. */
  lemma {:induction false} RepAfterLink(f: Forest, a: nat, b: nat, rank: seq<nat>, y: nat)
    requires Valid(f) && IsRoot(f, a) && IsRoot(f, b) && a != b
    requires Valid(Forest(f.parent[a := b], rank))
    requires y < |f.parent|
    ensures Rep(Forest(f.parent[a := b], rank), y) == if Rep(f, y) == a then b else Rep(f, y)
    decreases MaxOf(f.rank) - f.rank[y]
  {
    if f.parent[y] != y {
      RepAfterLink(f, a, b, rank, f.parent[y]);
    }
  }

  /** Raising the rank of root b and hanging root a of equal rank under it
      keeps the ranks increasing towards the roots. */
  lemma RanksGrowValid(f: Forest, a: nat, b: nat)
    requires Valid(f) && IsRoot(f, a) && IsRoot(f, b) && a != b
    requires f.rank[a] == f.rank[b]
    ensures Valid(Forest(f.parent[a := b], f.rank[b := f.rank[b] + 1]))
  {
    var g := Forest(f.parent[a := b], f.rank[b := f.rank[b] + 1]);
    forall z | 0 <= z < |g.parent| && g.parent[z] != z
      ensures g.rank[z] < g.rank[g.parent[z]]
    {
      if z != a {
        assert f.parent[z] != z;
        assert z != b;
      }
    }
  }

  /** Hangs root a under root b, raising b's rank by one when `bump`. */
  function Link(f: Forest, a: nat, b: nat, bump: bool): (g: Forest)
    requires Valid(f) && IsRoot(f, a) && IsRoot(f, b) && a != b
    requires if bump then f.rank[a] == f.rank[b] else f.rank[a] < f.rank[b]
    ensures Valid(g) && |g.parent| == |f.parent|
    ensures g.rank == if bump then f.rank[b := f.rank[b] + 1] else f.rank
    ensures forall z :: 0 <= z < |f.parent| ==> Rep(g, z) == if Rep(f, z) == a then b else Rep(f, z)
    ensures forall z :: 0 <= z < |f.parent| ==> (IsRoot(g, z) <==> IsRoot(f, z) && z != a)
  {
    var g := Forest(f.parent[a := b], if bump then f.rank[b := f.rank[b] + 1] else f.rank);
    assert Valid(g) by {
      if bump {
        RanksGrowValid(f, a, b);
      }
    }
    forall z | 0 <= z < |f.parent|
      ensures Rep(g, z) == if Rep(f, z) == a then b else Rep(f, z)
    {
      RepAfterLink(f, a, b, g.rank, z);
    }
    g
  }

  /** Of two roots, the one `merge` keeps as the root: the one of higher
      rank, and the second on equal ranks. */
  function Winner(f: Forest, xr: nat, yr: nat): (w: nat)
    requires Valid(f) && xr < |f.parent| && yr < |f.parent|
    ensures w == xr || w == yr
    ensures f.rank[w] >= f.rank[xr] && f.rank[w] >= f.rank[yr]
    ensures f.rank[xr] == f.rank[yr] ==> w == yr
  {
    if xr != yr && f.rank[xr] > f.rank[yr] then xr else yr
  }

  /** `merge`: finds both roots; unless they coincide, the root of lower rank
      goes under the other, and on equal ranks x's root goes under y's root,
      whose rank grows by one. */
  function Merge(f: Forest, x: nat, y: nat): (g: Forest)
    requires Valid(f) && x < |f.parent| && y < |f.parent|
    ensures Valid(g) && |g.parent| == |f.parent|
    ensures forall z :: 0 <= z < |f.parent| ==>
              Rep(g, z) == if Rep(f, z) == Rep(f, x) || Rep(f, z) == Rep(f, y)
                           then Winner(f, Rep(f, x), Rep(f, y)) else Rep(f, z)
    ensures g.rank == if Rep(f, x) != Rep(f, y) && f.rank[Rep(f, x)] == f.rank[Rep(f, y)]
                      then f.rank[Rep(f, y) := f.rank[Rep(f, y)] + 1] else f.rank
  {
    var (xRoot, yRoot, f2) := FindBoth(f, x, y);
    var g := LinkRoots(f2, xRoot, yRoot);
    MergeTransfer(f, f2, xRoot, yRoot, g);
    g
  }

  /** The two `find` calls of `merge`: the roots of x and of y, and the
      structure after both path compressions, which has the same ranks,
      representatives and roots. */
  function FindBoth(f: Forest, x: nat, y: nat): (r: (nat, nat, Forest))
    requires Valid(f) && x < |f.parent| && y < |f.parent|
    ensures r.0 == Rep(f, x) && r.1 == Rep(f, y)
    ensures Valid(r.2) && |r.2.parent| == |f.parent| && r.2.rank == f.rank
    ensures forall z :: 0 <= z < |f.parent| ==> Rep(r.2, z) == Rep(f, z)
    ensures IsRoot(r.2, r.0) && IsRoot(r.2, r.1)
  {
    var r1 := Find(f, x);
    var r2 := Find(r1.1, y);
    (r1.0, r2.0, r2.1)
  }

  /** The linking step of `merge` on two roots: unless they coincide, the
      root of lower rank goes under the other, and on equal ranks the first
      goes under the second, whose rank grows by one. */
  function LinkRoots(f: Forest, xr: nat, yr: nat): (g: Forest)
    requires Valid(f) && IsRoot(f, xr) && IsRoot(f, yr)
    ensures Valid(g) && |g.parent| == |f.parent|
    ensures forall z :: 0 <= z < |f.parent| ==>
              Rep(g, z) == if Rep(f, z) == xr || Rep(f, z) == yr then Winner(f, xr, yr) else Rep(f, z)
    ensures g.rank == if xr != yr && f.rank[xr] == f.rank[yr] then f.rank[yr := f.rank[yr] + 1] else f.rank
  {
    if xr == yr then f
    else
      var b := Winner(f, xr, yr);
      var a := if b == xr then yr else xr;
      Link(f, a, b, f.rank[a] == f.rank[b])
  }

  /** Path compression changed neither ranks nor representatives, so the
      linking step's promises about the compressed forest carry over to the
      original one. */
  lemma MergeTransfer(f: Forest, f2: Forest, xr: nat, yr: nat, g: Forest)
    requires Valid(f) && Valid(f2) && Valid(g)
    requires |f2.parent| == |f.parent| && |g.parent| == |f.parent| && f2.rank == f.rank
    requires forall z :: 0 <= z < |f.parent| ==> Rep(f2, z) == Rep(f, z)
    requires xr < |f.parent| && yr < |f.parent|
    requires forall z :: 0 <= z < |f2.parent| ==>
               Rep(g, z) == if Rep(f2, z) == xr || Rep(f2, z) == yr then Winner(f2, xr, yr) else Rep(f2, z)
    requires g.rank == if xr != yr && f2.rank[xr] == f2.rank[yr] then f2.rank[yr := f2.rank[yr] + 1] else f2.rank
    ensures forall z :: 0 <= z < |f.parent| ==>
              Rep(g, z) == if Rep(f, z) == xr || Rep(f, z) == yr then Winner(f, xr, yr) else Rep(f, z)
    ensures g.rank == if xr != yr && f.rank[xr] == f.rank[yr] then f.rank[yr := f.rank[yr] + 1] else f.rank
  {
    assert Winner(f2, xr, yr) == Winner(f, xr, yr);
    forall z | 0 <= z < |f.parent|
      ensures Rep(g, z) == if Rep(f, z) == xr || Rep(f, z) == yr then Winner(f, xr, yr) else Rep(f, z)
    {
      assert Rep(f2, z) == Rep(f, z);
    }
  }

  /** After `merge(x, y)`, x and y have one representative, the root of one
      of their former sets. */
  lemma MergeJoins(f: Forest, x: nat, y: nat)
    requires Valid(f) && x < |f.parent| && y < |f.parent|
    ensures var g := Merge(f, x, y);
            && SameSet(g, x, y)
            && (Rep(g, x) == Rep(f, x) || Rep(g, x) == Rep(f, y))
            && forall z :: 0 <= z < |f.parent| ==>
                 (SameSet(g, z, x) <==> SameSet(f, z, x) || SameSet(f, z, y))
  {
  }

  /** `merge` of two elements of one set changes no representative. */
  lemma MergeSameSet(f: Forest, x: nat, y: nat)
    requires Valid(f) && x < |f.parent| && y < |f.parent|
    requires SameSet(f, x, y)
    ensures var g := Merge(f, x, y);
            g.rank == f.rank && forall z :: 0 <= z < |f.parent| ==> Rep(g, z) == Rep(f, z)
  {
  }

  /** `merge` never separates two elements. */
  lemma MergeKeepsSameSet(f: Forest, x: nat, y: nat, u: nat, v: nat)
    requires Valid(f) && x < |f.parent| && y < |f.parent| && u < |f.parent| && v < |f.parent|
    requires SameSet(f, u, v)
    ensures SameSet(Merge(f, x, y), u, v)
  {
  }

  /** The roots of the forest, one per set. */
  ghost function Roots(f: Forest): set<nat>
  {
    set r: nat | r < |f.parent| && IsRoot(f, r)
  }

  /** The root that `merge` hangs under the other; the second root when
      both elements already share a set. */
  function Loser(f: Forest, x: nat, y: nat): nat
    requires Valid(f) && x < |f.parent| && y < |f.parent|
  {
    if Winner(f, Rep(f, x), Rep(f, y)) == Rep(f, x) then Rep(f, y) else Rep(f, x)
  }

  /** After `merge` an element is a root exactly when it was one and it is
      not the root hung under the other. */
  lemma RootAfterMerge(f: Forest, x: nat, y: nat, z: nat)
    requires Valid(f) && x < |f.parent| && y < |f.parent| && z < |f.parent|
    ensures IsRoot(Merge(f, x, y), z) <==> IsRoot(f, z) && (SameSet(f, x, y) || z != Loser(f, x, y))
  {
    var g := Merge(f, x, y);
    assert IsRoot(g, z) <==> Rep(g, z) == z;
    assert IsRoot(f, z) <==> Rep(f, z) == z;
  }

  /** `merge` of two different sets removes exactly one root; otherwise the
      roots stay. */
  lemma MergeRoots(f: Forest, x: nat, y: nat)
    requires Valid(f) && x < |f.parent| && y < |f.parent|
    ensures SameSet(f, x, y) ==> Roots(Merge(f, x, y)) == Roots(f)
    ensures !SameSet(f, x, y) ==> |Roots(Merge(f, x, y))| == |Roots(f)| - 1
  {
    RootsAfterMerge(f, x, y);
    RootsMember(f, Loser(f, x, y));
  }

  /** The roots after `merge`: all the old ones, less the one hung under the
      other when the sets were different. */
  lemma RootsAfterMerge(f: Forest, x: nat, y: nat)
    requires Valid(f) && x < |f.parent| && y < |f.parent|
    ensures Roots(Merge(f, x, y)) == if SameSet(f, x, y) then Roots(f) else Roots(f) - {Loser(f, x, y)}
  {
    forall z: nat
      ensures z in Roots(Merge(f, x, y)) <==> z in (if SameSet(f, x, y) then Roots(f) else Roots(f) - {Loser(f, x, y)})
    {
      RootsMemberAfterMerge(f, x, y, z);
    }
  }

  lemma RootsMemberAfterMerge(f: Forest, x: nat, y: nat, z: nat)
    requires Valid(f) && x < |f.parent| && y < |f.parent|
    ensures z in Roots(Merge(f, x, y)) <==> z in (if SameSet(f, x, y) then Roots(f) else Roots(f) - {Loser(f, x, y)})
  {
    RootsMember(Merge(f, x, y), z);
    RootsMember(f, z);
    if z < |f.parent| {
      RootAfterMerge(f, x, y, z);
    }
  }

  lemma RootsMember(f: Forest, z: nat)
    ensures z in Roots(f) <==> z < |f.parent| && IsRoot(f, z)
  {
  }

  /** A single root means a single set. */
  lemma OneRoot(f: Forest, u: nat, v: nat)
    requires Valid(f) && u < |f.parent| && v < |f.parent|
    requires |Roots(f)| == 1
    ensures SameSet(f, u, v)
  {
    assert Rep(f, u) in Roots(f) && Rep(f, v) in Roots(f);
    if Rep(f, u) != Rep(f, v) {
      assert {Rep(f, u), Rep(f, v)} <= Roots(f);
      SubsetCardinality({Rep(f, u), Rep(f, v)}, Roots(f));
    }
  }

  /** When everything shares a set with element 0, there is one root. */
  lemma AllSameOneRoot(f: Forest)
    requires Valid(f) && |f.parent| >= 1
    requires forall v :: 0 <= v < |f.parent| ==> SameSet(f, 0, v)
    ensures |Roots(f)| == 1
  {
    forall r | r in Roots(f)
      ensures r == Rep(f, 0)
    {
      assert SameSet(f, 0, r);
    }
    assert Roots(f) == {Rep(f, 0)};
  }

  /** Path compression keeps the set of roots. */
  lemma FindRoots(f: Forest, x: nat)
    requires Valid(f) && x < |f.parent|
    ensures Roots(Find(f, x).1) == Roots(f)
  {
    var g := Find(f, x).1;
    assert forall r: nat :: r in Roots(g) <==> r < |f.parent| && IsRoot(f, r);
  }

  /** The constructor's forest has one root per element. */
  lemma InitRoots(n: nat)
    ensures |Roots(Init(n))| == n
  {
    assert Roots(Init(n)) == Elements(n);
  }

  // Set sizes (trabalhos/uva_10608_friends).

  /** A forest with a size counter per element. */
  datatype SizedForest = SizedForest(forest: Forest, size: seq<int>)

  /** The elements whose representative is r. */
  ghost function Members(f: Forest, r: nat): set<nat>
    requires Valid(f)
  {
    set i: nat | i < |f.parent| && Rep(f, i) == r
  }

  lemma MemberIntro(f: Forest, r: nat, i: nat)
    requires Valid(f)
    ensures i in Members(f, r) <==> i < |f.parent| && Rep(f, i) == r
  {
  }

  /** The counter of every root is the number of elements in its set. */
  ghost predicate SizedValid(s: SizedForest)
  {
    && Valid(s.forest)
    && |s.size| == |s.forest.parent|
    && forall r :: 0 <= r < |s.size| && IsRoot(s.forest, r) ==> s.size[r] == |Members(s.forest, r)|
  }

  function Elements(n: nat): (e: set<nat>)
    ensures |e| == n
    ensures forall i: nat :: i in e <==> i < n
  {
    if n == 0 then {} else Elements(n - 1) + {n - 1}
  }

  /** A set holds between 1 and n elements. */
  lemma MembersBounds(f: Forest, x: nat)
    requires Valid(f) && x < |f.parent|
    ensures 1 <= |Members(f, Rep(f, x))| <= |f.parent|
  {
    var e := Elements(|f.parent|);
    assert Members(f, Rep(f, x)) <= e;
    SubsetCardinality(Members(f, Rep(f, x)), e);
    assert x in Members(f, Rep(f, x));
  }

  lemma SubsetCardinality<T>(a: set<T>, b: set<T>)
    requires a <= b
    ensures |a| <= |b|
  {
    if a != {} {
      var e :| e in a;
      SubsetCardinality(a - {e}, b - {e});
    }
  }

  /** The size-counting constructor: singletons of size 1. */
  function SizedInit(n: nat): (s: SizedForest)
    ensures SizedValid(s) && s.forest == Init(n) && |s.size| == n
    ensures forall x :: 0 <= x < n ==> Members(s.forest, x) == {x}
  {
    var s := SizedForest(Init(n), seq(n, i => 1));
    assert forall x :: 0 <= x < n ==> Members(s.forest, x) == {x};
    s
  }

  /** `merge` of friends/DisjointSet.cpp and `Union` of uva_friends.go: the
      same linking as `Merge`, and the size of the joined set is stored at
      the new root and returned. When both elements are already in one set
      that set's size is returned. */
  function Union(s: SizedForest, x: nat, y: nat): (r: (int, SizedForest))
    requires SizedValid(s) && x < |s.size| && y < |s.size|
    ensures SizedValid(r.1)
    ensures r.1.forest == Merge(s.forest, x, y)
    ensures r.0 == |Members(r.1.forest, Rep(r.1.forest, x))|
    ensures SameSet(s.forest, x, y) ==> r.0 == |Members(s.forest, Rep(s.forest, x))|
    ensures !SameSet(s.forest, x, y) ==>
              r.0 == |Members(s.forest, Rep(s.forest, x))| + |Members(s.forest, Rep(s.forest, y))|
    ensures 1 <= r.0 <= |s.size|
  {
    var f := s.forest;
    var (xRoot, yRoot, _) := FindBoth(f, x, y);
    var size := Counters(s, xRoot, yRoot);
    UnionCounters(s, x, y);
    UnionCount(s, x, y);
    (size[Winner(f, xRoot, yRoot)], SizedForest(Merge(f, x, y), size))
  }

  /** The counters after linking roots xr and yr: the surviving root's
      counter grows by the other root's, unless the roots coincide. */
  function Counters(s: SizedForest, xr: nat, yr: nat): (size: seq<int>)
    requires Valid(s.forest) && |s.size| == |s.forest.parent| && xr < |s.size| && yr < |s.size|
    ensures |size| == |s.size|
    ensures xr != yr ==> size[Winner(s.forest, xr, yr)] == s.size[xr] + s.size[yr]
    ensures forall k :: 0 <= k < |size| && (xr == yr || k != Winner(s.forest, xr, yr)) ==> size[k] == s.size[k]
  {
    var w := Winner(s.forest, xr, yr);
    var l := if w == xr then yr else xr;
    if xr == yr then s.size else s.size[w := s.size[w] + s.size[l]]
  }

  /** After `merge` every root's counter is still the size of its set. */
  lemma UnionCounters(s: SizedForest, x: nat, y: nat)
    requires SizedValid(s) && x < |s.size| && y < |s.size|
    ensures SizedValid(SizedForest(Merge(s.forest, x, y), Counters(s, Rep(s.forest, x), Rep(s.forest, y))))
  {
    WinnerCounter(s, x, y);
    OtherCounters(s, x, y);
  }

  /** The surviving root's counter is the size of the joined set. */
  lemma WinnerCounter(s: SizedForest, x: nat, y: nat)
    requires SizedValid(s) && x < |s.size| && y < |s.size|
    ensures var w := Winner(s.forest, Rep(s.forest, x), Rep(s.forest, y));
            Counters(s, Rep(s.forest, x), Rep(s.forest, y))[w] == |Members(Merge(s.forest, x, y), w)|
  {
    UnionCount(s, x, y);
    assert Rep(Merge(s.forest, x, y), x) == Winner(s.forest, Rep(s.forest, x), Rep(s.forest, y));
  }

  /** Every root other than the surviving one keeps its counter and its set. */
  lemma OtherCounters(s: SizedForest, x: nat, y: nat)
    requires SizedValid(s) && x < |s.size| && y < |s.size|
    ensures forall q: nat :: q < |s.size| && IsRoot(Merge(s.forest, x, y), q) && q != Winner(s.forest, Rep(s.forest, x), Rep(s.forest, y)) ==>
              Counters(s, Rep(s.forest, x), Rep(s.forest, y))[q] == |Members(Merge(s.forest, x, y), q)|
  {
    forall q: nat | q < |s.size| && IsRoot(Merge(s.forest, x, y), q) && q != Winner(s.forest, Rep(s.forest, x), Rep(s.forest, y))
      ensures Counters(s, Rep(s.forest, x), Rep(s.forest, y))[q] == |Members(Merge(s.forest, x, y), q)|
    {
      OtherCounter(s, x, y, q);
    }
  }

  /** A root other than the surviving one keeps its counter and its set. */
  lemma OtherCounter(s: SizedForest, x: nat, y: nat, q: nat)
    requires SizedValid(s) && x < |s.size| && y < |s.size|
    requires IsRoot(Merge(s.forest, x, y), q) && q != Winner(s.forest, Rep(s.forest, x), Rep(s.forest, y))
    ensures q < |s.size| && Counters(s, Rep(s.forest, x), Rep(s.forest, y))[q] == |Members(Merge(s.forest, x, y), q)|
  {
    MembersKept(s.forest, x, y, q);
    CountersElsewhere(s, Rep(s.forest, x), Rep(s.forest, y), q);
  }

  /** `Counters` changes only the counter of the winning root. */
  lemma CountersElsewhere(s: SizedForest, xr: nat, yr: nat, q: nat)
    requires Valid(s.forest) && |s.size| == |s.forest.parent| && xr < |s.size| && yr < |s.size| && q < |s.size|
    requires q != Winner(s.forest, xr, yr)
    ensures Counters(s, xr, yr)[q] == s.size[q]
  {
  }

  /** The counter of the surviving root is the size of the joined set. */
  lemma UnionCount(s: SizedForest, x: nat, y: nat)
    requires SizedValid(s) && x < |s.size| && y < |s.size|
    ensures var f, w := s.forest, Winner(s.forest, Rep(s.forest, x), Rep(s.forest, y));
            var size := Counters(s, Rep(f, x), Rep(f, y));
            && size[w] == |Members(Merge(f, x, y), Rep(Merge(f, x, y), x))|
            && (SameSet(f, x, y) ==> size[w] == |Members(f, Rep(f, x))|)
            && (!SameSet(f, x, y) ==> size[w] == |Members(f, Rep(f, x))| + |Members(f, Rep(f, y))|)
            && 1 <= size[w] <= |s.size|
  {
    var f := s.forest;
    var g := Merge(f, x, y);
    var xr, yr := Rep(f, x), Rep(f, y);
    var w := Winner(f, xr, yr);
    var size := Counters(s, xr, yr);
    assert Rep(g, x) == w;
    MembersBounds(g, x);
    MembersJoined(f, x, y);
    assert s.size[xr] == |Members(f, xr)| && s.size[yr] == |Members(f, yr)|;
    JoinedSize(Members(f, xr), Members(f, yr), Members(g, w), xr == yr, size[w]);
  }

  /** The counter arithmetic of a union: one set's size when both were one
      set, and the sum of two disjoint sizes otherwise. */
  lemma JoinedSize<T>(a: set<T>, b: set<T>, joined: set<T>, same: bool, count: int)
    requires joined == a + b
    requires same ==> a == b && count == |a|
    requires !same ==> a !! b && count == |a| + |b|
    ensures count == |joined|
  {
    if same {
      assert a + b == a;
    } else {
      DisjointUnionSize(a, b);
    }
  }

  lemma DisjointUnionSize<T>(a: set<T>, b: set<T>)
    requires a !! b
    ensures |a + b| == |a| + |b|
  {
    assert a * b == {};
  }

  /** `Merge` joins the sets of x and y under the surviving root. */
  lemma MembersJoined(f: Forest, x: nat, y: nat)
    requires Valid(f) && x < |f.parent| && y < |f.parent|
    ensures var g := Merge(f, x, y);
            Members(g, Winner(f, Rep(f, x), Rep(f, y))) == Members(f, Rep(f, x)) + Members(f, Rep(f, y))
    ensures !SameSet(f, x, y) ==> Members(f, Rep(f, x)) !! Members(f, Rep(f, y))
  {
    JoinedWithin(f, x, y);
    JoinedCovers(f, x, y);
    MembersDisjoint(f, Rep(f, x), Rep(f, y));
  }

  /** Every element of the joined set was in the set of x or of y. */
  lemma JoinedWithin(f: Forest, x: nat, y: nat)
    requires Valid(f) && x < |f.parent| && y < |f.parent|
    ensures Members(Merge(f, x, y), Winner(f, Rep(f, x), Rep(f, y))) <= Members(f, Rep(f, x)) + Members(f, Rep(f, y))
  {
    forall i | i in Members(Merge(f, x, y), Winner(f, Rep(f, x), Rep(f, y)))
      ensures i in Members(f, Rep(f, x)) + Members(f, Rep(f, y))
    {
      RepAfterMerge(f, x, y, i);
    }
  }

  /** Every element of the sets of x and of y is in the joined set. */
  lemma JoinedCovers(f: Forest, x: nat, y: nat)
    requires Valid(f) && x < |f.parent| && y < |f.parent|
    ensures Members(f, Rep(f, x)) + Members(f, Rep(f, y)) <= Members(Merge(f, x, y), Winner(f, Rep(f, x), Rep(f, y)))
  {
    var g, w := Merge(f, x, y), Winner(f, Rep(f, x), Rep(f, y));
    forall i: nat | i < |f.parent| && (Rep(f, i) == Rep(f, x) || Rep(f, i) == Rep(f, y))
      ensures i in Members(g, w)
    {
      RepAfterMerge(f, x, y, i);
      MemberIntro(g, w, i);
    }
  }

  /** After `Merge`, an element has the surviving root as representative
      exactly when it was in the set of x or of y. */
  lemma RepAfterMerge(f: Forest, x: nat, y: nat, i: nat)
    requires Valid(f) && x < |f.parent| && y < |f.parent| && i < |f.parent|
    ensures Rep(Merge(f, x, y), i) == Winner(f, Rep(f, x), Rep(f, y)) <==> Rep(f, i) == Rep(f, x) || Rep(f, i) == Rep(f, y)
  {
    assert Winner(f, Rep(f, x), Rep(f, y)) == Rep(f, x) || Winner(f, Rep(f, x), Rep(f, y)) == Rep(f, y);
  }

  /** Different roots have disjoint sets. */
  lemma MembersDisjoint(f: Forest, a: nat, b: nat)
    requires Valid(f)
    ensures a != b ==> Members(f, a) !! Members(f, b)
  {
  }

  /** Every other root of the merged structure was a root before, with the
      same set. */
  lemma MembersKept(f: Forest, x: nat, y: nat, q: nat)
    requires Valid(f) && x < |f.parent| && y < |f.parent|
    requires IsRoot(Merge(f, x, y), q) && q != Winner(f, Rep(f, x), Rep(f, y))
    ensures IsRoot(f, q) && q != Rep(f, x) && q != Rep(f, y)
    ensures Members(Merge(f, x, y), q) == Members(f, q)
  {
    OtherRoot(f, x, y, q);
    forall i: nat
      ensures i in Members(Merge(f, x, y), q) <==> i in Members(f, q)
    {
      MemberKept(f, x, y, q, i);
    }
  }

  /** A root of the merged structure other than the surviving one was a
      root before, of neither joined set. */
  lemma OtherRoot(f: Forest, x: nat, y: nat, q: nat)
    requires Valid(f) && x < |f.parent| && y < |f.parent|
    requires IsRoot(Merge(f, x, y), q) && q != Winner(f, Rep(f, x), Rep(f, y))
    ensures IsRoot(f, q) && q != Rep(f, x) && q != Rep(f, y)
  {
    var g := Merge(f, x, y);
    assert Rep(g, q) == q;
    assert Rep(f, q) == q;
  }

  /** An element is in the set of a root that `Merge` left alone exactly
      when it was before. */
  lemma MemberKept(f: Forest, x: nat, y: nat, q: nat, i: nat)
    requires Valid(f) && x < |f.parent| && y < |f.parent|
    requires IsRoot(f, q) && q != Rep(f, x) && q != Rep(f, y)
    ensures i in Members(Merge(f, x, y), q) <==> i in Members(f, q)
  {
    var g := Merge(f, x, y);
    MemberIntro(g, q, i);
    MemberIntro(f, q, i);
    if i < |f.parent| {
      assert Rep(g, i) == if Rep(f, i) == Rep(f, x) || Rep(f, i) == Rep(f, y)
                          then Winner(f, Rep(f, x), Rep(f, y)) else Rep(f, i);
    }
  }

  // uva_friends.go: MakeSet and the largest group.

  /** `MakeSet(x)` appends x as parent, rank 0 and count 1. The result is
      consistent exactly when x is the next free index. */
  function MakeSet(s: SizedForest, x: nat): (r: SizedForest)
    ensures |r.size| == |s.size| + 1
    ensures SizedValid(s) ==> (SizedValid(r) <==> x == |s.size|)
  {
    var r := SizedForest(Forest(s.forest.parent + [x], s.forest.rank + [0]), s.size + [1]);
    MakeSetNext(s, r, x);
    MakeSetOther(s, r, x);
    r
  }

  /** Appending an element no one points at changes no old representative. */
  lemma {:induction false} RepAfterAppend(f: Forest, g: Forest, y: nat)
    requires Valid(f) && Valid(g)
    requires |g.parent| == |f.parent| + 1
    requires g.parent[..|f.parent|] == f.parent && g.rank[..|f.parent|] == f.rank
    requires y < |f.parent|
    ensures Rep(g, y) == Rep(f, y)
    decreases MaxOf(f.rank) - f.rank[y]
  {
    assert g.parent[y] == f.parent[y];
    if f.parent[y] != y {
      assert g.parent[f.parent[y]] == f.parent[f.parent[y]];
      RepAfterAppend(f, g, f.parent[y]);
    }
  }

  lemma RepsAfterAppend(f: Forest, g: Forest)
    requires Valid(f) && Valid(g)
    requires |g.parent| == |f.parent| + 1
    requires g.parent[..|f.parent|] == f.parent && g.rank[..|f.parent|] == f.rank
    ensures forall y :: 0 <= y < |f.parent| ==> Rep(g, y) == Rep(f, y)
  {
    forall y | 0 <= y < |f.parent|
      ensures Rep(g, y) == Rep(f, y)
    {
      RepAfterAppend(f, g, y);
    }
  }

  /** Appending the next index as a singleton keeps the counters right. */
  lemma MakeSetNext(s: SizedForest, r: SizedForest, x: nat)
    requires r == SizedForest(Forest(s.forest.parent + [x], s.forest.rank + [0]), s.size + [1])
    ensures SizedValid(s) && x == |s.size| ==> SizedValid(r)
  {
    if !SizedValid(s) || x != |s.size| {
      return;
    }
    var f, g, n := s.forest, r.forest, |s.size|;
    assert g.parent[..n] == f.parent && g.rank[..n] == f.rank;
    assert Valid(g);
    RepsAfterAppend(f, g);
    forall q | 0 <= q < n + 1 && IsRoot(g, q)
      ensures r.size[q] == |Members(g, q)|
    {
      if q == n {
        assert Members(g, q) == {n};
      } else {
        assert Members(g, q) == Members(f, q);
      }
    }
  }

  /** Appending anything else breaks the structure: a parent out of range,
      a rank that does not grow, or a root whose counter misses the new
      element. */
  lemma MakeSetOther(s: SizedForest, r: SizedForest, x: nat)
    requires r == SizedForest(Forest(s.forest.parent + [x], s.forest.rank + [0]), s.size + [1])
    ensures SizedValid(s) && x != |s.size| ==> !SizedValid(r)
  {
    if !SizedValid(s) || x == |s.size| {
      return;
    }
    var f, g, n := s.forest, r.forest, |s.size|;
    assert g.parent[n] == x && g.rank[n] == 0;
    if x < n && f.rank[x] > 0 && Valid(g) {
      assert g.parent[..n] == f.parent && g.rank[..n] == f.rank;
      RepsAfterAppend(f, g);
      var root := Rep(f, x);
      assert Rep(g, n) == root;
      MembersAfterAppend(f, g, root);
      assert r.size[root] == s.size[root];
    }
  }

  /** Appending an element that joins the set of `root` adds exactly it to
      that set. */
  lemma MembersAfterAppend(f: Forest, g: Forest, root: nat)
    requires Valid(f) && Valid(g) && |g.parent| == |f.parent| + 1
    requires forall y :: 0 <= y < |f.parent| ==> Rep(g, y) == Rep(f, y)
    requires Rep(g, |f.parent|) == root
    ensures Members(g, root) == Members(f, root) + {|f.parent|}
  {
    forall i: nat
      ensures i in Members(g, root) <==> i in Members(f, root) + {|f.parent|}
    {
      MemberIntro(g, root, i);
      MemberIntro(f, root, i);
    }
  }

  /** MakeSet(0), ..., MakeSet(n-1) on the empty structure builds the
      constructor's singletons. */
  function MakeSets(n: nat): (s: SizedForest)
    ensures SizedValid(s) && s == SizedInit(n) && |s.size| == n
  {
    if n == 0 then SizedForest(Forest([], []), [])
    else
      var prev := MakeSets(n - 1);
      var r := MakeSet(prev, n - 1);
      assert r.forest.parent == Init(n).parent;
      assert r.forest.rank == Init(n).rank;
      assert r.size == SizedInit(n).size;
      r
  }

  /** The set x belongs to. */
  ghost function GroupOf(f: Forest, x: nat): set<nat>
    requires Valid(f) && x < |f.parent|
  {
    Members(f, Rep(f, x))
  }

  /** v is the size of a largest set. */
  ghost predicate IsLargestGroup(f: Forest, v: int)
    requires Valid(f)
  {
    && (exists x :: 0 <= x < |f.parent| && |GroupOf(f, x)| == v)
    && (forall x :: 0 <= x < |f.parent| ==> |GroupOf(f, x)| <= v)
  }

  /** The size of a largest set among those of elements 0..k-1 (0 when k is 0). */
  ghost function LargestUpTo(f: Forest, k: nat): int
    requires Valid(f) && k <= |f.parent|
  {
    if k == 0 then 0
    else
      var before := LargestUpTo(f, k - 1);
      var here := |GroupOf(f, k - 1)|;
      if here > before then here else before
  }

  ghost function LargestSize(f: Forest): int
    requires Valid(f)
  {
    LargestUpTo(f, |f.parent|)
  }

  /** The running maximum bounds every set it has seen and is attained by one. */
  lemma {:induction false} LargestUpToBounds(f: Forest, k: nat)
    requires Valid(f) && 0 < k <= |f.parent|
    ensures forall x :: 0 <= x < k ==> |GroupOf(f, x)| <= LargestUpTo(f, k)
    ensures exists x :: 0 <= x < k && |GroupOf(f, x)| == LargestUpTo(f, k)
  {
    if k > 1 {
      LargestUpToBounds(f, k - 1);
      var w :| 0 <= w < k - 1 && |GroupOf(f, w)| == LargestUpTo(f, k - 1);
      if |GroupOf(f, k - 1)| <= LargestUpTo(f, k - 1) {
        assert |GroupOf(f, w)| == LargestUpTo(f, k);
      }
    }
  }

  /** On a non-empty structure, the largest set size is the one value that
      is attained and bounds every set. */
  lemma LargestSizeIsLargest(f: Forest, v: int)
    requires Valid(f) && |f.parent| > 0
    ensures IsLargestGroup(f, v) <==> v == LargestSize(f)
  {
    LargestUpToBounds(f, |f.parent|);
    if IsLargestGroup(f, v) {
      var x :| 0 <= x < |f.parent| && |GroupOf(f, x)| == v;
      var y :| 0 <= y < |f.parent| && |GroupOf(f, y)| == LargestSize(f);
      assert |GroupOf(f, y)| <= v;
      assert |GroupOf(f, x)| <= LargestSize(f);
    }
  }

  /** The set of any element after `Merge`: the joined set, or its old set. */
  lemma MembersAfterMerge(f: Forest, x: nat, y: nat, z: nat)
    requires Valid(f) && x < |f.parent| && y < |f.parent| && z < |f.parent|
    ensures var g := Merge(f, x, y);
            Members(g, Rep(g, z)) ==
              if SameSet(f, z, x) || SameSet(f, z, y)
              then Members(f, Rep(f, x)) + Members(f, Rep(f, y))
              else Members(f, Rep(f, z))
  {
    var g := Merge(f, x, y);
    MembersJoined(f, x, y);
    if !SameSet(f, z, x) && !SameSet(f, z, y) {
      MembersKept(f, x, y, Rep(g, z));
    }
  }

  /** In the constructor's singletons every set has size 1. */
  lemma SingletonsLargest(n: nat)
    requires n > 0
    ensures LargestSize(MakeSets(n).forest) == 1
  {
    var f := MakeSets(n).forest;
    assert |GroupOf(f, 0)| == 1;
    assert IsLargestGroup(f, 1);
    LargestSizeIsLargest(f, 1);
  }

  /** After `Merge` every set is either the joined one or unchanged, and no
      set shrinks. */
  lemma GroupAfterMerge(f: Forest, x: nat, y: nat, z: nat)
    requires Valid(f) && x < |f.parent| && y < |f.parent| && z < |f.parent|
    ensures GroupOf(Merge(f, x, y), z) == GroupOf(Merge(f, x, y), x)
            || GroupOf(Merge(f, x, y), z) == GroupOf(f, z)
    ensures |GroupOf(f, z)| <= |GroupOf(Merge(f, x, y), z)|
  {
    var g := Merge(f, x, y);
    MembersAfterMerge(f, x, y, x);
    MembersAfterMerge(f, x, y, z);
    assert GroupOf(f, z) <= GroupOf(g, z);
    SubsetCardinality(GroupOf(f, z), GroupOf(g, z));
  }

  /** Taking the maximum with the size of the joined set keeps the running
      value the size of a largest set. */
  lemma LargestAfterMerge(f: Forest, x: nat, y: nat, v: int)
    requires Valid(f) && x < |f.parent| && y < |f.parent|
    requires v == LargestSize(f)
    ensures var count := |GroupOf(Merge(f, x, y), x)|;
            LargestSize(Merge(f, x, y)) == if count > v then count else v
  {
    var g := Merge(f, x, y);
    var count := |GroupOf(g, x)|;
    var nv := if count > v then count else v;
    LargestSizeIsLargest(f, v);
    forall z | 0 <= z < |g.parent|
      ensures |GroupOf(g, z)| <= nv
    {
      GroupAfterMerge(f, x, y, z);
    }
    if count <= v {
      var w :| 0 <= w < |f.parent| && |GroupOf(f, w)| == v;
      GroupAfterMerge(f, x, y, w);
      assert |GroupOf(g, w)| == nv;
    } else {
      assert |GroupOf(g, x)| == nv;
    }
    assert IsLargestGroup(g, nv);
    LargestSizeIsLargest(g, nv);
  }

  /** Folding the size returned by a union into the running maximum keeps it
      the size of a largest set. */
  lemma LargestAfterUnion(s: SizedForest, x: nat, y: nat, v: int)
    requires SizedValid(s) && x < |s.size| && y < |s.size|
    ensures v == LargestSize(s.forest) ==>
              LargestSize(Union(s, x, y).1.forest) == if Union(s, x, y).0 > v then Union(s, x, y).0 else v
  {
    if v == LargestSize(s.forest) {
      LargestAfterMerge(s.forest, x, y, v);
    }
  }

  /** Every pair names two citizens 1..n. */
  predicate PairsIn(pairs: seq<(nat, nat)>, n: nat)
  {
    forall j :: 0 <= j < |pairs| ==> 1 <= pairs[j].0 <= n && 1 <= pairs[j].1 <= n
  }

  lemma PairsInPrefix(pairs: seq<(nat, nat)>, n: nat)
    requires PairsIn(pairs, n) && |pairs| > 0
    ensures PairsIn(pairs[..|pairs| - 1], n)
    ensures 1 <= pairs[|pairs| - 1].0 <= n && 1 <= pairs[|pairs| - 1].1 <= n
  {
  }

  /** The state of the loop of uva_friends.go `main`: the running maximum
      and the structure. */
  datatype Tally = Tally(largest: int, groups: SizedForest)

  /** One turn of the loop: union x and y and fold the returned size into
      the running maximum. */
  function Step(t: Tally, x: nat, y: nat): (r: Tally)
    requires SizedValid(t.groups) && x < |t.groups.size| && y < |t.groups.size|
    ensures SizedValid(r.groups) && |r.groups.size| == |t.groups.size|
    ensures r.largest >= t.largest
  {
    var after := Union(t.groups, x, y);
    Tally(if after.0 > t.largest then after.0 else t.largest, after.1)
  }

  /** A running value that is the largest set size stays one after a turn. */
  lemma StepLargest(t: Tally, x: nat, y: nat)
    requires SizedValid(t.groups) && x < |t.groups.size| && y < |t.groups.size|
    ensures t.largest == LargestSize(t.groups.forest) ==>
              Step(t, x, y).largest == LargestSize(Step(t, x, y).groups.forest)
  {
    LargestAfterUnion(t.groups, x, y, t.largest);
  }

  /** The loop over the pairs of one test, in input order, from the running
      maximum 1. */
  function UnionAll(s: SizedForest, pairs: seq<(nat, nat)>): (r: Tally)
    requires SizedValid(s)
    requires PairsIn(pairs, |s.size|)
    ensures SizedValid(r.groups) && |r.groups.size| == |s.size|
    ensures LargestSize(s.forest) == 1 ==> r.largest == LargestSize(r.groups.forest)
  {
    if |pairs| == 0 then Tally(1, s)
    else
      PairsInPrefix(pairs, |s.size|);
      var before := UnionAll(s, pairs[..|pairs| - 1]);
      var x, y := pairs[|pairs| - 1].0 - 1, pairs[|pairs| - 1].1 - 1;
      StepLargest(before, x, y);
      Step(before, x, y)
  }

  /** uva_friends.go `main` for one test: the size of a largest group of
      friends once every pair is joined (1 when there are no citizens). */
  function LargestGroup(numCitizens: nat, pairs: seq<(nat, nat)>): (max: int)
    requires PairsIn(pairs, numCitizens)
    ensures numCitizens > 0 ==> max == LargestSize(UnionAll(MakeSets(numCitizens), pairs).groups.forest)
    ensures numCitizens == 0 ==> max == 1
  {
    if numCitizens > 0 then
      SingletonsLargest(numCitizens);
      UnionAll(MakeSets(numCitizens), pairs).largest
    else 1
  }
}
