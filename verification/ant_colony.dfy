/** The ant hills of trabalhos/uri_1135_colonia_de_formigas/main.cpp: the
    adjacency lists `main` builds from the tunnel lines of a case, and the
    depth-first search that answers one query. The search pops a hill from
    a stack; the destination ends it, a hill not yet visited is marked and
    every hill it joins is pushed with its distance set one tunnel further.
    Nothing in this module assumes the tunnels form a tree. */
module AntColony {
  import opened Seqs

  /** `pair<long, int>`: a tunnel length and the hill at its other end. */
  type Entry = (int, int)
  type AdjList = seq<seq<Entry>>

  /** The line of a case for hill i + 1: the hill it is joined to (`.0`) and
      the length of the tunnel (`.1`). */
  type Link = (int, int)

  datatype Option<T> = None | Some(value: T)

  predicate Distinct<T(==)>(s: seq<T>)
  {
    forall i, j :: 0 <= i < j < |s| ==> s[i] != s[j]
  }

  /** At most one line per hill after hill 0, each naming a hill of the case. */
  predicate LinksIn(size: nat, links: seq<Link>)
  {
    |links| < size && forall i :: 0 <= i < |links| ==> 0 <= links[i].0 < size
  }

  /** Line i joins hill i + 1 and its `dest` both ways with its length. */
  ghost predicate Joins(links: seq<Link>, v: int, e: Entry)
  {
    exists i :: 0 <= i < |links| && e.0 == links[i].1 &&
      ((v == i + 1 && e.1 == links[i].0) || (v == links[i].0 && e.1 == i + 1))
  }

  /** The list of hill v holds the entry e. */
  ghost predicate Listed(adj: AdjList, v: int, e: Entry)
  {
    0 <= v < |adj| && exists j :: 0 <= j < |adj[v]| && adj[v][j] == e
  }

  lemma ListedAppend(adj: AdjList, u: int, x: Entry, v: int, e: Entry)
    requires 0 <= u < |adj|
    ensures Listed(adj[u := adj[u] + [x]], v, e) <==> Listed(adj, v, e) || (v == u && e == x)
  {
    var a := adj[u := adj[u] + [x]];
    if Listed(adj, v, e) {
      var j :| 0 <= j < |adj[v]| && adj[v][j] == e;
      assert a[v][j] == e;
    }
    if v == u && e == x {
      assert a[v][|adj[u]|] == e;
    }
  }

  /** The number of entries of all the lists. */
  function Entries(adj: AdjList): nat
  {
    if |adj| == 0 then 0 else Entries(adj[..|adj| - 1]) + |adj[|adj| - 1]|
  }

  lemma {:induction false} EntriesAppend(adj: AdjList, v: nat, e: Entry)
    requires v < |adj|
    ensures Entries(adj[v := adj[v] + [e]]) == Entries(adj) + 1
    decreases |adj|
  {
    var a := adj[v := adj[v] + [e]];
    if v < |adj| - 1 {
      assert a[..|a| - 1] == adj[..|adj| - 1][v := adj[v] + [e]];
      EntriesAppend(adj[..|adj| - 1], v, e);
    } else {
      assert a[..|a| - 1] == adj[..|adj| - 1];
    }
  }

  /** Listing the last link at both of its ends, after the lists built from
      the links before it, lists exactly the joins of all the links. */
  lemma BuildStep(size: nat, links: seq<Link>, prior: AdjList, one: AdjList, two: AdjList)
    requires LinksIn(size, links) && |links| >= 1 && |prior| == size
    requires forall v, e :: 0 <= v < size ==> (Listed(prior, v, e) <==> Joins(links[..|links| - 1], v, e))
    requires var n := |links| - 1; var line := links[n];
             && one == prior[n + 1 := prior[n + 1] + [(line.1, line.0)]]
             && two == one[line.0 := one[line.0] + [(line.1, n + 1)]]
    ensures forall v, e :: 0 <= v < size ==> (Listed(two, v, e) <==> Joins(links, v, e))
  {
    var n := |links| - 1;
    var line := links[n];
    forall v, e | 0 <= v < size
      ensures Listed(two, v, e) <==> Joins(links, v, e)
    {
      JoinsLast(links, v, e);
      ListedAppend(prior, n + 1, (line.1, line.0), v, e);
      ListedAppend(one, line.0, (line.1, n + 1), v, e);
    }
  }

  /** `adjList` after the first |links| lines of a case of `size` hills: every
      list holds exactly the tunnels the lines give its hill, each line adds
      two entries, and so the size - 1 lines of a case give size - 1 tunnels
      listed from both ends. */
  function Build(size: nat, links: seq<Link>): (adj: AdjList)
    requires LinksIn(size, links)
    ensures |adj| == size
    ensures forall v, e :: 0 <= v < size ==> (Listed(adj, v, e) <==> Joins(links, v, e))
    ensures Entries(adj) == 2 * |links|
    decreases |links|
  {
    if |links| == 0 then
      var adj := seq(size, _ => []);
      assert Entries(adj) == 0 by { EntriesEmpty(adj); }
      adj
    else
      var n := |links| - 1;
      var front := links[..n];
      var prior := Build(size, front);
      var line := links[n];
      var one := prior[n + 1 := prior[n + 1] + [(line.1, line.0)]];
      var two := one[line.0 := one[line.0] + [(line.1, n + 1)]];
      EntriesAppend(prior, n + 1, (line.1, line.0));
      EntriesAppend(one, line.0, (line.1, n + 1));
      BuildStep(size, links, prior, one, two);
      two
  }

  lemma EntriesEmpty(adj: AdjList)
    requires forall v :: 0 <= v < |adj| ==> adj[v] == []
    ensures Entries(adj) == 0
  {
  }

  /** What the last line adds to the tunnels of the lines before it. */
  lemma JoinsLast(links: seq<Link>, v: int, e: Entry)
    requires |links| >= 1
    ensures Joins(links, v, e) <==>
              Joins(links[..|links| - 1], v, e) ||
              (var n := |links| - 1;
               e.0 == links[n].1 &&
               ((v == n + 1 && e.1 == links[n].0) || (v == links[n].0 && e.1 == n + 1)))
  {
    var n := |links| - 1;
    var front := links[..n];
    if Joins(links, v, e) {
      var i :| 0 <= i < |links| && e.0 == links[i].1 &&
        ((v == i + 1 && e.1 == links[i].0) || (v == links[i].0 && e.1 == i + 1));
      if i < n {
        assert front[i] == links[i];
      }
    }
    if Joins(front, v, e) {
      var i :| 0 <= i < |front| && e.0 == front[i].1 &&
        ((v == i + 1 && e.1 == front[i].0) || (v == front[i].0 && e.1 == i + 1));
      assert links[i] == front[i];
    }
  }

  /** Every entry names a hill of the case. */
  predicate WellFormed(adj: AdjList)
  {
    forall v, j :: 0 <= v < |adj| && 0 <= j < |adj[v]| ==> 0 <= adj[v][j].1 < |adj|
  }

  lemma BuildWellFormed(size: nat, links: seq<Link>)
    requires LinksIn(size, links)
    ensures WellFormed(Build(size, links))
  {
    var adj: AdjList := Build(size, links);
    forall v: int, j: int | 0 <= v < |adj| && 0 <= j < |adj[v]|
      ensures 0 <= adj[v][j].1 < |adj|
    {
      assert Listed(adj, v, adj[v][j]);
    }
  }

  /** No tunnel leads from a hill to itself. */
  predicate NoSelfLoops(adj: AdjList)
  {
    forall v, j :: 0 <= v < |adj| && 0 <= j < |adj[v]| ==> adj[v][j].1 != v
  }

  /** `pair<int, int> e = adjList[v][j]` reads the `long` length into a 32-bit
      `int`, which keeps it modulo 2^32. */
  function Narrow(x: int): (r: int)
    ensures -0x8000_0000 <= r < 0x8000_0000
    ensures (r - x) % 0x1_0000_0000 == 0
  {
    (x + 0x8000_0000) % 0x1_0000_0000 - 0x8000_0000
  }

  lemma NarrowKeeps(x: int)
    requires -0x8000_0000 <= x < 0x8000_0000
    ensures Narrow(x) == x
  {
  }

  /** A walk: hills each joined to the next by an entry of the lists, with the
      length of that entry. */
  ghost predicate Walk(adj: AdjList, hills: seq<int>, lengths: seq<int>)
  {
    && |hills| >= 1 && |lengths| == |hills| - 1
    && (forall i :: 0 <= i < |hills| ==> 0 <= hills[i] < |adj|)
    && (forall i :: 0 <= i < |lengths| ==> Listed(adj, hills[i], (lengths[i], hills[i + 1])))
  }

  /** The length of a walk as the search adds it up. */
  function Total(lengths: seq<int>): int
  {
    if |lengths| == 0 then 0 else Total(lengths[..|lengths| - 1]) + Narrow(lengths[|lengths| - 1])
  }

  lemma WalkExtend(adj: AdjList, hills: seq<int>, lengths: seq<int>, j: nat)
    requires WellFormed(adj) && Walk(adj, hills, lengths) && j < |adj[Last(hills)]|
    ensures var e := adj[Last(hills)][j];
            Walk(adj, hills + [e.1], lengths + [e.0]) &&
            Total(lengths + [e.0]) == Total(lengths) + Narrow(e.0)
  {
    var e := adj[Last(hills)][j];
    assert (lengths + [e.0])[..|lengths|] == lengths;
    assert Listed(adj, Last(hills), e);
  }

  ghost predicate Reachable(adj: AdjList, a: int, b: int)
  {
    exists hills, lengths :: Walk(adj, hills, lengths) && hills[0] == a && Last(hills) == b
  }

  /** The hills not yet visited. */
  function Unvisited(visited: seq<bool>): nat
  {
    if |visited| == 0 then 0
    else Unvisited(visited[..|visited| - 1]) + if visited[|visited| - 1] then 0 else 1
  }

  lemma {:induction false} VisitCounts(visited: seq<bool>, v: nat)
    requires v < |visited| && !visited[v]
    ensures Unvisited(visited[v := true]) == Unvisited(visited) - 1
    decreases |visited|
  {
    var after := visited[v := true];
    var n := |visited| - 1;
    if v < n {
      assert after[..n] == visited[..n][v := true];
      VisitCounts(visited[..n], v);
    } else {
      assert after[..n] == visited[..n];
    }
  }

  // What the search keeps about the hills it has met.

  /** `dists[w]` is the length of a walk `trail[w]` from the source to w,
      whose tunnels are `steps[w]`. */
  ghost predicate Sound(adj: AdjList, src: int, dists: seq<int>, trail: seq<seq<int>>, steps: seq<seq<int>>, w: int)
  {
    && 0 <= w < |dists| && w < |trail| && w < |steps|
    && Walk(adj, trail[w], steps[w]) && trail[w][0] == src && Last(trail[w]) == w
    && Total(steps[w]) == dists[w]
  }

  /** A walk that repeats no hill and whose hills before the last are visited. */
  ghost predicate Simple(visited: seq<bool>, hills: seq<int>)
  {
    && Distinct(hills)
    && forall i :: 0 <= i < |hills| - 1 ==> 0 <= hills[i] < |visited| && visited[hills[i]]
  }

  ghost predicate Traced(adj: AdjList, src: int, visited: seq<bool>, dists: seq<int>,
                         trail: seq<seq<int>>, steps: seq<seq<int>>, w: int)
  {
    Sound(adj, src, dists, trail, steps, w) && (NoSelfLoops(adj) ==> Simple(visited, trail[w]))
  }

  /** Every hill on the stack that is not yet visited is traced. */
  ghost predicate Pending(adj: AdjList, src: int, visited: seq<bool>, dists: seq<int>,
                          trail: seq<seq<int>>, steps: seq<seq<int>>, stack: seq<int>)
  {
    forall k :: 0 <= k < |stack| ==>
      0 <= stack[k] < |visited| && (!visited[stack[k]] ==> Traced(adj, src, visited, dists, trail, steps, stack[k]))
  }

  /** Every hill joined to a visited hill other than `dest` and `busy` is
      visited or waits on the stack. */
  ghost predicate Closed(adj: AdjList, visited: seq<bool>, dest: int, busy: int, stack: seq<int>)
  {
    forall u, j :: 0 <= u < |adj| && u < |visited| && visited[u] && u != dest && u != busy && 0 <= j < |adj[u]| ==>
      (0 <= adj[u][j].1 < |visited| && visited[adj[u][j].1]) || adj[u][j].1 in stack
  }

  /** Changing the entries of one hill leaves every other hill traced. */
  lemma TracedFrame(adj: AdjList, src: int, visited: seq<bool>, dists: seq<int>, trail: seq<seq<int>>, steps: seq<seq<int>>,
                    dists': seq<int>, trail': seq<seq<int>>, steps': seq<seq<int>>, w: int, x: int)
    requires |dists'| == |dists| && |trail'| == |trail| && |steps'| == |steps|
    requires 0 <= x < |dists| && x < |trail| && x < |steps| && x != w
    requires dists'[x] == dists[x] && trail'[x] == trail[x] && steps'[x] == steps[x]
    requires Traced(adj, src, visited, dists, trail, steps, x)
    ensures Traced(adj, src, visited, dists', trail', steps', x)
  {
  }

  /** The walk to the busy hill `v` followed by its j-th tunnel traces the
      hill at the other end, and leaves `v` traced. */
  lemma StepTraced(adj: AdjList, src: int, v: int, j: int, visited: seq<bool>,
                   dists: seq<int>, trail: seq<seq<int>>, steps: seq<seq<int>>,
                   dists': seq<int>, trail': seq<seq<int>>, steps': seq<seq<int>>)
    requires WellFormed(adj) && |visited| == |dists| == |trail| == |steps| == |adj|
    requires 0 <= v < |adj| && visited[v] && 0 <= j < |adj[v]|
    requires Sound(adj, src, dists, trail, steps, v)
    requires NoSelfLoops(adj) ==> Distinct(trail[v]) && forall i :: 0 <= i < |trail[v]| ==> visited[trail[v][i]]
    requires dists' == dists[adj[v][j].1 := dists[v] + Narrow(adj[v][j].0)]
    requires trail' == trail[adj[v][j].1 := trail[v] + [adj[v][j].1]]
    requires steps' == steps[adj[v][j].1 := steps[v] + [adj[v][j].0]]
    ensures !visited[adj[v][j].1] ==> Traced(adj, src, visited, dists', trail', steps', adj[v][j].1)
    ensures Sound(adj, src, dists', trail', steps', v)
    ensures NoSelfLoops(adj) ==> trail'[v] == trail[v]
  {
    var e := adj[v][j];
    var w := e.1;
    WalkExtend(adj, trail[v], steps[v], j);
    assert Sound(adj, src, dists', trail', steps', w);
    if NoSelfLoops(adj) && !visited[w] {
      assert w != v;
      assert w !in trail[v];
      assert Simple(visited, trail'[w]);
    }
    if w != v {
      assert trail'[v] == trail[v] && steps'[v] == steps[v] && dists'[v] == dists[v];
    }
  }

  /** Pushing a hill that is visited or traced keeps the stack pending. */
  lemma PendingPush(adj: AdjList, src: int, w: int, visited: seq<bool>, stack: seq<int>,
                    dists: seq<int>, trail: seq<seq<int>>, steps: seq<seq<int>>,
                    dists': seq<int>, trail': seq<seq<int>>, steps': seq<seq<int>>)
    requires 0 <= w < |visited| && w < |dists| && w < |trail| && w < |steps|
    requires |dists'| == |dists| && |trail'| == |trail| && |steps'| == |steps|
    requires dists' == dists[w := dists'[w]] && trail' == trail[w := trail'[w]] && steps' == steps[w := steps'[w]]
    requires Pending(adj, src, visited, dists, trail, steps, stack)
    requires !visited[w] ==> Traced(adj, src, visited, dists', trail', steps', w)
    ensures Pending(adj, src, visited, dists', trail', steps', stack + [w])
  {
    var stack' := stack + [w];
    forall k | 0 <= k < |stack'|
      ensures 0 <= stack'[k] < |visited| && (!visited[stack'[k]] ==> Traced(adj, src, visited, dists', trail', steps', stack'[k]))
    {
      if k < |stack| && stack'[k] != w && !visited[stack'[k]] {
        TracedFrame(adj, src, visited, dists, trail, steps, dists', trail', steps', w, stack'[k]);
      }
    }
  }

  /** Pushes the j-th hill joined to the busy hill `v`, one tunnel further
      than `v`. */
  method Push(adj: AdjList, ghost src: int, dest: int, v: int, j: int, visited: seq<bool>, dists: seq<int>, stack: seq<int>,
              ghost trail: seq<seq<int>>, ghost steps: seq<seq<int>>)
    returns (dists': seq<int>, stack': seq<int>, ghost trail': seq<seq<int>>, ghost steps': seq<seq<int>>)
    requires WellFormed(adj) && |visited| == |dists| == |trail| == |steps| == |adj|
    requires 0 <= v < |adj| && visited[v] && 0 <= j < |adj[v]|
    requires Sound(adj, src, dists, trail, steps, v)
    requires NoSelfLoops(adj) ==> Distinct(trail[v]) && forall i :: 0 <= i < |trail[v]| ==> visited[trail[v][i]]
    requires Pending(adj, src, visited, dists, trail, steps, stack)
    requires Closed(adj, visited, dest, v, stack)
    ensures |dists'| == |trail'| == |steps'| == |adj|
    ensures stack' == stack + [adj[v][j].1]
    ensures dists' == dists[adj[v][j].1 := dists[v] + Narrow(adj[v][j].0)]
    ensures Sound(adj, src, dists', trail', steps', v)
    ensures NoSelfLoops(adj) ==> trail'[v] == trail[v]
    ensures Pending(adj, src, visited, dists', trail', steps', stack')
    ensures Closed(adj, visited, dest, v, stack')
  {
    var e := adj[v][j];
    var w := e.1;
    stack' := stack + [w];
    dists' := dists[w := dists[v] + Narrow(e.0)];
    trail' := trail[w := trail[v] + [w]];
    steps' := steps[w := steps[v] + [e.0]];
    StepTraced(adj, src, v, j, visited, dists, trail, steps, dists', trail', steps');
    PendingPush(adj, src, w, visited, stack, dists, trail, steps, dists', trail', steps');
  }

  /** The `else if` branch of the search: `v`, not yet visited, is marked and
      every hill it joins is pushed. */
  method Expand(adj: AdjList, ghost src: int, dest: int, v: int, visited: seq<bool>, dists: seq<int>, stack: seq<int>,
                ghost trail: seq<seq<int>>, ghost steps: seq<seq<int>>)
    returns (dists': seq<int>, stack': seq<int>, ghost trail': seq<seq<int>>, ghost steps': seq<seq<int>>)
    requires WellFormed(adj) && |visited| == |dists| == |trail| == |steps| == |adj|
    requires 0 <= v < |adj| && visited[v] && v != dest
    requires Sound(adj, src, dists, trail, steps, v)
    requires NoSelfLoops(adj) ==> Distinct(trail[v]) && forall i :: 0 <= i < |trail[v]| ==> visited[trail[v][i]]
    requires Pending(adj, src, visited, dists, trail, steps, stack)
    requires Closed(adj, visited, dest, v, stack)
    ensures |dists'| == |trail'| == |steps'| == |adj|
    ensures |stack'| >= |stack| && stack'[..|stack|] == stack
    ensures Pending(adj, src, visited, dists', trail', steps', stack')
    ensures Closed(adj, visited, dest, -1, stack')
  {
    dists', stack', trail', steps' := dists, stack, trail, steps;
    var j := 0;
    while j < |adj[v]|
      invariant 0 <= j <= |adj[v]|
      invariant |dists'| == |trail'| == |steps'| == |adj|
      invariant |stack'| == |stack| + j && stack'[..|stack|] == stack
      invariant forall i :: 0 <= i < j ==> stack'[|stack| + i] == adj[v][i].1
      invariant Sound(adj, src, dists', trail', steps', v)
      invariant NoSelfLoops(adj) ==> trail'[v] == trail[v]
      invariant Pending(adj, src, visited, dists', trail', steps', stack')
      invariant Closed(adj, visited, dest, v, stack')
    {
      ghost var before := stack';
      dists', stack', trail', steps' := Push(adj, src, dest, v, j, visited, dists', stack', trail', steps');
      assert stack'[..|before|] == before;
      j := j + 1;
    }
    forall u: int, i: int | 0 <= u < |adj| && u < |visited| && visited[u] && u != dest && 0 <= i < |adj[u]|
      ensures (0 <= adj[u][i].1 < |visited| && visited[adj[u][i].1]) || adj[u][i].1 in stack'
    {
      if u == v {
        assert stack'[|stack| + i] == adj[v][i].1;
      }
    }
  }

  /** A set of visited hills that holds the source, leaves out `dest` and
      holds every hill joined to one of its hills holds every hill of every
      walk from the source. */
  lemma {:induction false} WalkStays(adj: AdjList, visited: seq<bool>, src: int, dest: int, hills: seq<int>, lengths: seq<int>, i: nat)
    requires WellFormed(adj) && |visited| == |adj| && 0 <= dest < |adj| && !visited[dest]
    requires Closed(adj, visited, dest, -1, [])
    requires Walk(adj, hills, lengths) && hills[0] == src && 0 <= src < |adj| && visited[src]
    requires i < |hills|
    ensures visited[hills[i]]
  {
    if i > 0 {
      WalkStays(adj, visited, src, dest, hills, lengths, i - 1);
      var u := hills[i - 1];
      var e := (lengths[i - 1], hills[i]);
      assert Listed(adj, u, e);
      var k :| 0 <= k < |adj[u]| && adj[u][k] == e;
    }
  }

  lemma Unreachable(adj: AdjList, visited: seq<bool>, src: int, dest: int)
    requires WellFormed(adj) && |visited| == |adj| && 0 <= dest < |adj| && !visited[dest]
    requires Closed(adj, visited, dest, -1, [])
    requires 0 <= src < |adj| && visited[src]
    ensures !Reachable(adj, src, dest)
  {
    if Reachable(adj, src, dest) {
      var hills, lengths :| Walk(adj, hills, lengths) && hills[0] == src && Last(hills) == dest;
      WalkStays(adj, visited, src, dest, hills, lengths, |hills| - 1);
    }
  }

  /** The state of a query between two pops of the stack. */
  ghost predicate Searching(adj: AdjList, src: int, dest: int, visited: seq<bool>, dists: seq<int>,
                            trail: seq<seq<int>>, steps: seq<seq<int>>, stack: seq<int>,
                            out: Option<int>, hills: seq<int>, lengths: seq<int>, expanded: seq<int>)
  {
    && WellFormed(adj) && 0 <= src < |adj| && 0 <= dest < |adj|
    && |visited| == |dists| == |trail| == |steps| == |adj|
    && Pending(adj, src, visited, dists, trail, steps, stack)
    && Closed(adj, visited, dest, -1, stack)
    && (visited[src] || src in stack)
    && (out.Some? <==> visited[dest])
    && (out.Some? ==> Walk(adj, hills, lengths) && hills[0] == src && Last(hills) == dest && Total(lengths) == out.value)
    && (out.Some? && NoSelfLoops(adj) ==> Distinct(hills))
    && (src == dest ==> out == Some(0) || (stack == [src] && dists[src] == 0 && !visited[src]))
    && Distinct(expanded)
    && (forall k :: 0 <= k < |expanded| ==> 0 <= expanded[k] < |adj| && expanded[k] != dest)
    && (forall u :: 0 <= u < |adj| && u != dest ==> (u in expanded <==> visited[u]))
  }

  /** Marking the popped `dest` visited keeps the stack pending and closed. */
  lemma DropDest(adj: AdjList, src: int, dest: int, visited: seq<bool>, dists: seq<int>, stack: seq<int>,
                 trail: seq<seq<int>>, steps: seq<seq<int>>)
    requires 0 <= dest < |visited| && |stack| > 0 && Last(stack) == dest
    requires Pending(adj, src, visited, dists, trail, steps, stack)
    requires Closed(adj, visited, dest, -1, stack)
    ensures Pending(adj, src, visited[dest := true], dists, trail, steps, stack[..|stack| - 1])
    ensures Closed(adj, visited[dest := true], dest, -1, stack[..|stack| - 1])
  {
    var rest := stack[..|stack| - 1];
    assert forall k :: 0 <= k < |rest| ==> rest[k] == stack[k];
    assert forall x :: x in stack ==> x == dest || x in rest;
  }

  /** Popping `dest` ends the search with the distance it holds. */
  method PopDest(adj: AdjList, ghost src: int, dest: int, visited: seq<bool>, dists: seq<int>, stack: seq<int>,
                 ghost trail: seq<seq<int>>, ghost steps: seq<seq<int>>,
                 out: Option<int>, ghost hills: seq<int>, ghost lengths: seq<int>, ghost expanded: seq<int>)
    returns (visited': seq<bool>, stack': seq<int>, out': Option<int>, ghost hills': seq<int>, ghost lengths': seq<int>)
    requires Searching(adj, src, dest, visited, dists, trail, steps, stack, out, hills, lengths, expanded)
    requires |stack| > 0 && !visited[dest] && Last(stack) == dest
    ensures Searching(adj, src, dest, visited', dists, trail, steps, stack', out', hills', lengths', expanded)
    ensures Unvisited(visited') < Unvisited(visited)
  {
    stack' := stack[..|stack| - 1];
    assert Traced(adj, src, visited, dists, trail, steps, dest);
    DropDest(adj, src, dest, visited, dists, stack, trail, steps);
    VisitCounts(visited, dest);
    visited' := visited[dest := true];
    out', hills', lengths' := Some(dists[dest]), trail[dest], steps[dest];
  }

  /** Marking the popped hill `v` visited sets up its expansion. */
  lemma MarkNew(adj: AdjList, src: int, dest: int, visited: seq<bool>, dists: seq<int>, stack: seq<int>,
                trail: seq<seq<int>>, steps: seq<seq<int>>,
                out: Option<int>, hills: seq<int>, lengths: seq<int>, expanded: seq<int>)
    requires Searching(adj, src, dest, visited, dists, trail, steps, stack, out, hills, lengths, expanded)
    requires |stack| > 0 && !visited[dest] && Last(stack) != dest && !visited[Last(stack)]
    ensures var v := Last(stack);
            var marked := visited[v := true];
            var rest := stack[..|stack| - 1];
            && Sound(adj, src, dists, trail, steps, v)
            && (NoSelfLoops(adj) ==> Distinct(trail[v]) && forall i :: 0 <= i < |trail[v]| ==> marked[trail[v][i]])
            && Pending(adj, src, marked, dists, trail, steps, rest)
            && Closed(adj, marked, dest, v, rest)
  {
    var v := Last(stack);
    var rest := stack[..|stack| - 1];
    assert forall k :: 0 <= k < |rest| ==> rest[k] == stack[k];
    assert Traced(adj, src, visited, dists, trail, steps, v);
  }

  /** After the expansion of `v` the search state holds again. */
  lemma Expanded(adj: AdjList, src: int, dest: int, visited: seq<bool>, stack: seq<int>,
                 out: Option<int>, hills: seq<int>, lengths: seq<int>, expanded: seq<int>,
                 marked: seq<bool>, dists': seq<int>, stack': seq<int>, trail': seq<seq<int>>, steps': seq<seq<int>>)
    requires WellFormed(adj) && 0 <= src < |adj| && 0 <= dest < |adj| && |visited| == |adj|
    requires |stack| > 0 && !visited[dest] && Last(stack) != dest && 0 <= Last(stack) < |adj| && !visited[Last(stack)]
    requires (visited[src] || src in stack)
    requires out.None? && (src == dest ==> stack == [src] && !visited[src])
    requires Distinct(expanded)
    requires forall k :: 0 <= k < |expanded| ==> 0 <= expanded[k] < |adj| && expanded[k] != dest
    requires forall u :: 0 <= u < |adj| && u != dest ==> (u in expanded <==> visited[u])
    requires marked == visited[Last(stack) := true]
    requires |dists'| == |trail'| == |steps'| == |adj|
    requires |stack'| >= |stack| - 1 && stack'[..|stack| - 1] == stack[..|stack| - 1]
    requires Pending(adj, src, marked, dists', trail', steps', stack')
    requires Closed(adj, marked, dest, -1, stack')
    ensures Searching(adj, src, dest, marked, dists', trail', steps', stack', out, hills, lengths, expanded + [Last(stack)])
  {
    var v := Last(stack);
    if src != v && src in stack {
      var k :| 0 <= k < |stack| && stack[k] == src;
      assert stack'[k] == src;
    }
    var more := expanded + [v];
    assert v !in expanded;
    assert Distinct(more);
    forall u | 0 <= u < |adj| && u != dest
      ensures u in more <==> marked[u]
    {
      assert u in more <==> u in expanded || u == v;
    }
  }

  /** Popping a hill not yet visited other than `dest` expands it. */
  method PopNew(adj: AdjList, ghost src: int, dest: int, visited: seq<bool>, dists: seq<int>, stack: seq<int>,
                ghost trail: seq<seq<int>>, ghost steps: seq<seq<int>>,
                out: Option<int>, ghost hills: seq<int>, ghost lengths: seq<int>, ghost expanded: seq<int>)
    returns (visited': seq<bool>, dists': seq<int>, stack': seq<int>,
             ghost trail': seq<seq<int>>, ghost steps': seq<seq<int>>, ghost expanded': seq<int>)
    requires Searching(adj, src, dest, visited, dists, trail, steps, stack, out, hills, lengths, expanded)
    requires |stack| > 0 && !visited[dest] && Last(stack) != dest && !visited[Last(stack)]
    ensures Searching(adj, src, dest, visited', dists', trail', steps', stack', out, hills, lengths, expanded')
    ensures Unvisited(visited') < Unvisited(visited)
  {
    var v := stack[|stack| - 1];
    var rest := stack[..|stack| - 1];
    MarkNew(adj, src, dest, visited, dists, stack, trail, steps, out, hills, lengths, expanded);
    VisitCounts(visited, v);
    visited' := visited[v := true];
    dists', stack', trail', steps' := Expand(adj, src, dest, v, visited', dists, rest, trail, steps);
    expanded' := expanded + [v];
    Expanded(adj, src, dest, visited, stack, out, hills, lengths, expanded, visited', dists', stack', trail', steps');
  }

  /** Popping a hill already visited only drops it. */
  lemma PopOld(adj: AdjList, src: int, dest: int, visited: seq<bool>, dists: seq<int>, stack: seq<int>,
               trail: seq<seq<int>>, steps: seq<seq<int>>,
               out: Option<int>, hills: seq<int>, lengths: seq<int>, expanded: seq<int>)
    requires Searching(adj, src, dest, visited, dists, trail, steps, stack, out, hills, lengths, expanded)
    requires |stack| > 0 && !visited[dest] && visited[Last(stack)]
    ensures Searching(adj, src, dest, visited, dists, trail, steps, stack[..|stack| - 1], out, hills, lengths, expanded)
  {
    var rest := stack[..|stack| - 1];
    assert forall k :: 0 <= k < |rest| ==> rest[k] == stack[k];
    assert forall x :: x in stack ==> x == Last(stack) || x in rest;
  }

  /** One pass of the `while` loop of a query. */
  method Pop(adj: AdjList, ghost src: int, dest: int, visited: seq<bool>, dists: seq<int>, stack: seq<int>,
             ghost trail: seq<seq<int>>, ghost steps: seq<seq<int>>,
             out: Option<int>, ghost hills: seq<int>, ghost lengths: seq<int>, ghost expanded: seq<int>)
    returns (visited': seq<bool>, dists': seq<int>, stack': seq<int>,
             ghost trail': seq<seq<int>>, ghost steps': seq<seq<int>>,
             out': Option<int>, ghost hills': seq<int>, ghost lengths': seq<int>, ghost expanded': seq<int>)
    requires Searching(adj, src, dest, visited, dists, trail, steps, stack, out, hills, lengths, expanded)
    requires |stack| > 0 && !visited[dest]
    ensures Searching(adj, src, dest, visited', dists', trail', steps', stack', out', hills', lengths', expanded')
    ensures Unvisited(visited') < Unvisited(visited) || (visited' == visited && |stack'| < |stack|)
  {
    visited', dists', trail', steps', out', hills', lengths', expanded' :=
      visited, dists, trail, steps, out, hills, lengths, expanded;
    var v := stack[|stack| - 1];
    if v == dest {
      visited', stack', out', hills', lengths' := PopDest(adj, src, dest, visited, dists, stack, trail, steps, out, hills, lengths, expanded);
    } else if !visited[v] {
      visited', dists', stack', trail', steps', expanded' := PopNew(adj, src, dest, visited, dists, stack, trail, steps, out, hills, lengths, expanded);
    } else {
      PopOld(adj, src, dest, visited, dists, stack, trail, steps, out, hills, lengths, expanded);
      stack' := stack[..|stack| - 1];
    }
  }

  /** One query of `main`: the search from `src` until `dest` is popped.
      `Some(d)` is the `dists[dest]` it prints, `None` a query it prints
      nothing for. It prints exactly when a walk leads from `src` to `dest`,
      and then the length of one such walk, which repeats no hill when no
      tunnel leads back to its own hill; it prints 0 when the two hills are
      one; and no hill is expanded twice. */
  method Query(adj: AdjList, src: int, dest: int)
    returns (out: Option<int>, ghost hills: seq<int>, ghost lengths: seq<int>, ghost expanded: seq<int>)
    requires WellFormed(adj) && 0 <= src < |adj| && 0 <= dest < |adj|
    ensures out.Some? ==> Walk(adj, hills, lengths) && hills[0] == src && Last(hills) == dest && Total(lengths) == out.value
    ensures out.Some? && NoSelfLoops(adj) ==> Distinct(hills)
    ensures out.Some? <==> Reachable(adj, src, dest)
    ensures src == dest ==> out == Some(0)
    ensures Distinct(expanded) && forall k :: 0 <= k < |expanded| ==> 0 <= expanded[k] < |adj| && expanded[k] != dest
  {
    var visited := seq(|adj|, _ => false);
    var dists := seq(|adj|, _ => 0);
    var stack := [src];
    ghost var trail: seq<seq<int>> := seq(|adj|, w => [w]);
    ghost var steps: seq<seq<int>> := seq(|adj|, _ => []);
    out, hills, lengths, expanded := None, [src], [], [];
    assert Traced(adj, src, visited, dists, trail, steps, src);
    while |stack| > 0 && !visited[dest]
      invariant Searching(adj, src, dest, visited, dists, trail, steps, stack, out, hills, lengths, expanded)
      decreases Unvisited(visited), |stack|
    {
      visited, dists, stack, trail, steps, out, hills, lengths, expanded :=
        Pop(adj, src, dest, visited, dists, stack, trail, steps, out, hills, lengths, expanded);
    }
    if out.None? {
      Unreachable(adj, visited, src, dest);
    }
  }
}
