/** The breadth-first search of trabalhos/uva_10422_knights_in_fen/main.cpp,
    stated for any kind of position: `key` names a position (`getKey`),
    `adj` lists the positions one move away (`getAdjacents`). Starting from
    one position at depth 1, the search records for every key it meets one
    more than the fewest moves that reach it, and expands a position only
    while that number of moves is below the limit. The queue of `main` holds
    the positions of one depth followed by those of the next, so the search
    is written one level at a time. */
module LevelSearch {
  import opened Seqs

  /** A game: positions from the start, each one move after the one before. */
  ghost predicate Game<B>(adj: B -> seq<B>, start: B, g: seq<B>)
    decreases |g|
  {
    if |g| <= 1 then g == [start]
    else Game(adj, start, g[..|g| - 1]) && g[|g| - 1] in adj(g[|g| - 2])
  }

  lemma GameExtend<B>(adj: B -> seq<B>, start: B, g: seq<B>, c: B)
    requires Game(adj, start, g) && c in adj(Last(g))
    ensures Game(adj, start, g + [c])
  {
    assert (g + [c])[..|g|] == g;
  }

  /** Every move keeps valid. */
  ghost predicate Invariant<B(!new)>(adj: B -> seq<B>, valid: B -> bool)
  {
    forall b, c :: valid(b) && c in adj(b) ==> valid(c)
  }

  /** Valid positions with one key are one position. */
  ghost predicate Separates<B(!new), K>(key: B -> K, valid: B -> bool)
  {
    forall b, c :: valid(b) && valid(c) && key(b) == key(c) ==> b == c
  }

  /** A property that the start has and that every move keeps holds of the
      last position of every game. */
  lemma {:induction false} GameKeeps<B(!new)>(adj: B -> seq<B>, valid: B -> bool, start: B, g: seq<B>)
    requires valid(start) && Invariant(adj, valid)
    requires Game(adj, start, g)
    ensures |g| >= 1 && g[0] == start && valid(Last(g))
    decreases |g|
  {
    if |g| > 1 {
      var front := g[..|g| - 1];
      GameKeeps(adj, valid, start, front);
      assert Last(g) in adj(Last(front));
    }
  }

  /** A game read position by position: it starts at the start and each
      position is one move after the one before. */
  lemma {:induction false} GameSteps<B>(adj: B -> seq<B>, start: B, g: seq<B>)
    ensures Game(adj, start, g) <==>
              |g| >= 1 && g[0] == start && forall i :: 1 <= i < |g| ==> g[i] in adj(g[i - 1])
    decreases |g|
  {
    if |g| > 1 {
      var front := g[..|g| - 1];
      GameSteps(adj, start, front);
      assert forall i :: 0 <= i < |front| ==> front[i] == g[i];
    }
  }

  /** Every move can be undone from a valid position. */
  ghost predicate Reversible<B(!new)>(adj: B -> seq<B>, valid: B -> bool)
  {
    forall b, c :: valid(b) && c in adj(b) ==> b in adj(c)
  }

  /** Every position of a game from a valid start is valid. */
  lemma {:induction false} GameValid<B(!new)>(adj: B -> seq<B>, valid: B -> bool, start: B, g: seq<B>, i: nat)
    requires valid(start) && Invariant(adj, valid) && Game(adj, start, g) && i < |g|
    ensures valid(g[i])
  {
    GameSteps(adj, start, g);
    if i > 0 {
      GameValid(adj, valid, start, g, i - 1);
    }
  }

  function Reverse<B>(g: seq<B>): (r: seq<B>)
    ensures |r| == |g| && forall i :: 0 <= i < |g| ==> r[i] == g[|g| - 1 - i]
  {
    if |g| == 0 then [] else [g[|g| - 1]] + Reverse(g[..|g| - 1])
  }

  /** When moves can be undone, a game played backwards is a game from its
      last position back to the start. */
  lemma GameReversed<B(!new)>(adj: B -> seq<B>, valid: B -> bool, start: B, g: seq<B>)
    requires valid(start) && Invariant(adj, valid) && Reversible(adj, valid) && Game(adj, start, g)
    ensures Game(adj, Last(g), Reverse(g)) && Last(Reverse(g)) == start
  {
    GameSteps(adj, start, g);
    var r := Reverse(g);
    forall i | 1 <= i < |r|
      ensures r[i] in adj(r[i - 1])
    {
      var n := |g| - 1 - i;
      assert r[i] == g[n] && r[i - 1] == g[n + 1];
      GameValid(adj, valid, start, g, n);
      assert g[n + 1] in adj(g[n]);
    }
    GameSteps(adj, Last(g), r);
  }

  // What the search keeps.

  /** The start at depth 1, and for every key a depth between 1 and bound and
      a game of that many positions from the start to a position with that
      key. */
  ghost predicate Recorded<B, K>(adj: B -> seq<B>, key: B -> K, start: B,
                                         depths: map<K, int>, paths: map<K, seq<B>>, bound: int)
  {
    && key(start) in depths && depths[key(start)] == 1
    && forall k :: k in depths ==>
         && 1 <= depths[k] <= bound && k in paths && |paths[k]| == depths[k]
         && Game(adj, start, paths[k]) && key(Last(paths[k])) == k
  }

  /** The keys of the positions. */
  function KeysOf<B, K>(key: B -> K, boards: seq<B>): set<K>
  {
    if |boards| == 0 then {} else KeysOf(key, boards[..|boards| - 1]) + {key(boards[|boards| - 1])}
  }

  /** A key of the positions is the key of one of them. */
  lemma {:induction false} KeysOfIndex<B, K>(key: B -> K, boards: seq<B>, k: K) returns (j: nat)
    requires k in KeysOf(key, boards)
    ensures j < |boards| && key(boards[j]) == k
    decreases |boards|
  {
    var front := boards[..|boards| - 1];
    if k in KeysOf(key, front) {
      j := KeysOfIndex(key, front, k);
      assert boards[j] == front[j];
    } else {
      j := |boards| - 1;
    }
  }

  /** One level of the queue: each position is the last of the game
      recorded for its key, at depth d, and every key at depth d is the key
      of one of them. */
  ghost predicate Level<B, K>(key: B -> K, depths: map<K, int>, paths: map<K, seq<B>>, boards: seq<B>, d: int)
  {
    && (forall j :: 0 <= j < |boards| ==>
          key(boards[j]) in depths && depths[key(boards[j])] == d
          && key(boards[j]) in paths && |paths[key(boards[j])]| >= 1 && Last(paths[key(boards[j])]) == boards[j])
    && (forall k :: k in depths && depths[k] == d ==> k in KeysOf(key, boards))
  }

  /** Every position one move from b has a key recorded at depth at most
      d + 1. */
  ghost predicate Closed<B, K>(key: B -> K, adj: B -> seq<B>, depths: map<K, int>, b: B, d: int)
  {
    forall j :: 0 <= j < |adj(b)| ==> key(adj(b)[j]) in depths && depths[key(adj(b)[j])] <= d + 1
  }

  /** The keys below depth d and within the limit have been expanded. */
  ghost predicate ExpandedBelow<B, K>(key: B -> K, adj: B -> seq<B>, depths: map<K, int>,
                                          paths: map<K, seq<B>>, d: int, limit: int)
  {
    forall k :: k in depths && depths[k] < d && depths[k] <= limit ==>
      k in paths && |paths[k]| >= 1 && Closed(key, adj, depths, Last(paths[k]), depths[k])
  }

  /** Recorded keys keep their depth and game. */
  ghost predicate Grows<B, K>(depths: map<K, int>, paths: map<K, seq<B>>, depths': map<K, int>, paths': map<K, seq<B>>)
  {
    forall k :: k in depths ==> k in depths' && depths'[k] == depths[k] && (k in paths ==> k in paths' && paths'[k] == paths[k])
  }

  /** Keys recorded since depths all sit at depth d. */
  ghost predicate NewAt<K>(depths: map<K, int>, depths': map<K, int>, d: int)
  {
    forall k :: k in depths' && k !in depths ==> depths'[k] == d
  }

  /** Each of the first n positions has a key recorded at depth at most d. */
  ghost predicate Covers<B, K>(key: B -> K, depths: map<K, int>, boards: seq<B>, n: nat, d: int)
    requires n <= |boards|
  {
    forall j :: 0 <= j < n ==> key(boards[j]) in depths && depths[key(boards[j])] <= d
  }

  // One step of the search keeps it.

  lemma ClosedGrows<B, K>(key: B -> K, adj: B -> seq<B>, depths: map<K, int>, depths': map<K, int>, b: B, d: int)
    requires Closed(key, adj, depths, b, d)
    requires forall k :: k in depths ==> k in depths' && depths'[k] == depths[k]
    ensures Closed(key, adj, depths', b, d)
  {
  }

  /** The first n positions are all closed. */
  ghost predicate AllClosed<B, K>(key: B -> K, adj: B -> seq<B>, depths: map<K, int>, boards: seq<B>, n: nat, d: int)
    requires n <= |boards|
  {
    forall j :: 0 <= j < n ==> Closed(key, adj, depths, boards[j], d)
  }

  /** Closing position n keeps the earlier positions closed as keys are
      added. */
  lemma AllClosedStep<B, K>(key: B -> K, adj: B -> seq<B>, depths: map<K, int>, depths': map<K, int>,
                            boards: seq<B>, n: nat, d: int)
    requires n < |boards| && AllClosed(key, adj, depths, boards, n, d)
    requires forall k :: k in depths ==> k in depths' && depths'[k] == depths[k]
    requires Closed(key, adj, depths', boards[n], d)
    ensures AllClosed(key, adj, depths', boards, n + 1, d)
  {
    forall j | 0 <= j < n
      ensures Closed(key, adj, depths', boards[j], d)
    {
      ClosedGrows(key, adj, depths, depths', boards[j], d);
    }
  }

  /** Recording a new key with a game of d positions keeps what the search
      has recorded ... */
  lemma RecordedAdd<B, K>(adj: B -> seq<B>, key: B -> K, start: B, depths: map<K, int>, paths: map<K, seq<B>>,
                          game: seq<B>, k: K, d: int)
    requires Recorded(adj, key, start, depths, paths, d) && d >= 1
    requires Game(adj, start, game) && |game| == d && key(Last(game)) == k && k !in depths
    ensures Recorded(adj, key, start, depths[k := d], paths[k := game], d)
  {
  }

  /** ... and, with its last position queued, the level being built. */
  lemma LevelAdd<B, K>(key: B -> K, depths: map<K, int>, paths: map<K, seq<B>>, next: seq<B>,
                       game: seq<B>, c: B, d: int)
    requires Level(key, depths, paths, next, d) && |game| >= 1 && Last(game) == c && key(c) !in depths
    ensures Level(key, depths[key(c) := d], paths[key(c) := game], next + [c], d)
  {
    var boards := next + [c];
    assert boards[..|next|] == next;
    assert KeysOf(key, boards) == KeysOf(key, next) + {key(c)};
    var depths', paths' := depths[key(c) := d], paths[key(c) := game];
    forall j | 0 <= j < |boards|
      ensures key(boards[j]) in depths' && depths'[key(boards[j])] == d
              && key(boards[j]) in paths' && |paths'[key(boards[j])]| >= 1 && Last(paths'[key(boards[j])]) == boards[j]
    {
      if j < |next| {
        assert boards[j] == next[j];
      }
    }
  }

  /** A position one move after the last of a game, with a key not yet
      recorded, is recorded with the game extended by it, and queued. */
  lemma RecordNew<B, K>(adj: B -> seq<B>, key: B -> K, start: B, depths: map<K, int>, paths: map<K, seq<B>>,
                        next: seq<B>, game: seq<B>, c: B, d: int)
    requires Recorded(adj, key, start, depths, paths, d) && Level(key, depths, paths, next, d) && d >= 2
    requires Game(adj, start, game) && |game| == d - 1 && c in adj(Last(game)) && key(c) !in depths
    ensures Recorded(adj, key, start, depths[key(c) := d], paths[key(c) := game + [c]], d)
    ensures Level(key, depths[key(c) := d], paths[key(c) := game + [c]], next + [c], d)
  {
    GameExtend(adj, start, game, c);
    assert Last(game + [c]) == c;
    RecordedAdd(adj, key, start, depths, paths, game + [c], key(c), d);
    LevelAdd(key, depths, paths, next, game + [c], c, d);
  }

  /** A level survives new keys recorded at another depth. */
  lemma LevelKeep<B, K>(key: B -> K, depths: map<K, int>, paths: map<K, seq<B>>,
                               depths': map<K, int>, paths': map<K, seq<B>>, boards: seq<B>, d: int, d': int)
    requires Level(key, depths, paths, boards, d) && Grows(depths, paths, depths', paths')
    requires NewAt(depths, depths', d') && d' != d
    ensures Level(key, depths', paths', boards, d)
  {
  }

  /** With no key at depth d, the empty queue is the level at depth d. */
  lemma LevelEmpty<B, K>(key: B -> K, depths: map<K, int>, paths: map<K, seq<B>>, d: int)
    requires forall k :: k in depths ==> depths[k] < d
    ensures Level(key, depths, paths, [], d)
  {
  }

  /** Position n is covered once its key is recorded low enough, and keys
      that stay leave the earlier positions covered. */
  lemma CoversStep<B, K>(key: B -> K, depths: map<K, int>, depths': map<K, int>, boards: seq<B>, n: nat, d: int)
    requires n < |boards| && Covers(key, depths, boards, n, d)
    requires forall k :: k in depths ==> k in depths' && depths'[k] == depths[k]
    requires key(boards[n]) in depths' && depths'[key(boards[n])] <= d
    ensures Covers(key, depths', boards, n + 1, d)
  {
  }

  /** After a level is expanded, the keys below the next level are
      expanded. */
  lemma ExpandedStep<B, K>(key: B -> K, adj: B -> seq<B>, depths: map<K, int>, paths: map<K, seq<B>>,
                                  depths': map<K, int>, paths': map<K, seq<B>>, frontier: seq<B>, depth: int, limit: int)
    requires Level(key, depths, paths, frontier, depth) && ExpandedBelow(key, adj, depths, paths, depth, limit)
    requires Grows(depths, paths, depths', paths') && NewAt(depths, depths', depth + 1)
    requires depth <= limit ==> AllClosed(key, adj, depths', frontier, |frontier|, depth)
    ensures ExpandedBelow(key, adj, depths', paths', depth + 1, limit)
  {
    forall k | k in depths' && depths'[k] < depth + 1 && depths'[k] <= limit
      ensures k in paths' && |paths'[k]| >= 1 && Closed(key, adj, depths', Last(paths'[k]), depths'[k])
    {
      assert k in depths;
      if depths[k] < depth {
        ClosedGrows(key, adj, depths, depths', Last(paths[k]), depths[k]);
      } else {
        var j := KeysOfIndex(key, frontier, k);
      }
    }
  }

  // The search.

  /** The body of the inner loop of `main` for position i of the adjacent
      positions, whose key is not yet recorded: it is queued and recorded at
      depth current + 1. */
  method VisitNew<B(==), K(==)>(key: B -> K, adj: B -> seq<B>, ghost start: B, adjacents: seq<B>, i: nat,
                               ghost depths0: map<K, int>, ghost paths0: map<K, seq<B>>,
                               depths: map<K, int>, next: seq<B>, ghost paths: map<K, seq<B>>,
                               ghost game: seq<B>, current: int)
    returns (depths': map<K, int>, next': seq<B>, ghost paths': map<K, seq<B>>)
    requires i < |adjacents| && key(adjacents[i]) !in depths
    requires Game(adj, start, game) && |game| == current >= 1 && adjacents[i] in adj(Last(game))
    requires Recorded(adj, key, start, depths, paths, current + 1) && Level(key, depths, paths, next, current + 1)
    requires Grows(depths0, paths0, depths, paths) && NewAt(depths0, depths, current + 1)
    requires Covers(key, depths, adjacents, i, current + 1)
    ensures Recorded(adj, key, start, depths', paths', current + 1) && Level(key, depths', paths', next', current + 1)
    ensures Grows(depths0, paths0, depths', paths') && NewAt(depths0, depths', current + 1)
    ensures Covers(key, depths', adjacents, i + 1, current + 1)
  {
    var c := adjacents[i];
    RecordNew(adj, key, start, depths, paths, next, game, c, current + 1);
    CoversStep(key, depths, depths[key(c) := current + 1], adjacents, i, current + 1);
    next' := next + [c];
    depths' := depths[key(c) := current + 1];
    paths' := paths[key(c) := game + [c]];
  }

  /** The inner loop of `main`: every position one move from b whose key is
      not yet recorded is queued and recorded at depth current + 1. */
  method Visit<B(==), K(==)>(key: B -> K, adj: B -> seq<B>, ghost start: B, b: B, current: int,
                            depths: map<K, int>, next: seq<B>, ghost paths: map<K, seq<B>>, ghost game: seq<B>)
    returns (depths': map<K, int>, next': seq<B>, ghost paths': map<K, seq<B>>)
    requires current >= 1 && Game(adj, start, game) && |game| == current && Last(game) == b
    requires Recorded(adj, key, start, depths, paths, current + 1) && Level(key, depths, paths, next, current + 1)
    ensures Recorded(adj, key, start, depths', paths', current + 1) && Level(key, depths', paths', next', current + 1)
    ensures Grows(depths, paths, depths', paths') && NewAt(depths, depths', current + 1)
    ensures Closed(key, adj, depths', b, current)
  {
    var adjacents := adj(b);
    depths', next', paths' := depths, next, paths;
    var i := 0;
    while i < |adjacents|
      invariant 0 <= i <= |adjacents|
      invariant Recorded(adj, key, start, depths', paths', current + 1) && Level(key, depths', paths', next', current + 1)
      invariant Grows(depths, paths, depths', paths') && NewAt(depths, depths', current + 1)
      invariant Covers(key, depths', adjacents, i, current + 1)
    {
      if key(adjacents[i]) !in depths' {
        depths', next', paths' := VisitNew(key, adj, start, adjacents, i, depths, paths, depths', next', paths', game, current);
      } else {
        CoversStep(key, depths', depths', adjacents, i, current + 1);
      }
      i := i + 1;
    }
  }

  /** The outer loop of `main` for one position of the current level: its
      depth is read back, and its neighbours are visited when that depth
      less one is below the limit. */
  method ExpandOne<B(==), K(==)>(key: B -> K, adj: B -> seq<B>, ghost start: B, frontier: seq<B>, f: nat,
                                depth: int, limit: int,
                                ghost depths0: map<K, int>, ghost paths0: map<K, seq<B>>,
                                depths: map<K, int>, next: seq<B>, ghost paths: map<K, seq<B>>)
    returns (depths': map<K, int>, next': seq<B>, ghost paths': map<K, seq<B>>)
    requires f < |frontier| && depth >= 1
    requires Recorded(adj, key, start, depths, paths, depth + 1) && Level(key, depths, paths, next, depth + 1)
    requires Level(key, depths, paths, frontier, depth)
    requires Grows(depths0, paths0, depths, paths) && NewAt(depths0, depths, depth + 1)
    ensures Recorded(adj, key, start, depths', paths', depth + 1) && Level(key, depths', paths', next', depth + 1)
    ensures Level(key, depths', paths', frontier, depth)
    ensures Grows(depths0, paths0, depths', paths') && NewAt(depths0, depths', depth + 1)
    ensures Grows(depths, paths, depths', paths')
    ensures depth - 1 < limit ==> Closed(key, adj, depths', frontier[f], depth)
    ensures depth - 1 >= limit ==> depths' == depths && next' == next
  {
    var b := frontier[f];
    var current := depths[key(b)];
    depths', next', paths' := depths, next, paths;
    if current - 1 < limit {
      depths', next', paths' := Visit(key, adj, start, b, current, depths, next, paths, paths[key(b)]);
      LevelKeep(key, depths, paths, depths', paths', frontier, depth, depth + 1);
    }
  }

  /** One level of the queue of `main`: each position of the level is taken
      in turn, and those within the limit are expanded into the next
      level. */
  method ExpandLevel<B(==), K(==)>(key: B -> K, adj: B -> seq<B>, ghost start: B, frontier: seq<B>,
                                  depth: int, limit: int, depths: map<K, int>, ghost paths: map<K, seq<B>>)
    returns (depths': map<K, int>, next: seq<B>, ghost paths': map<K, seq<B>>)
    requires depth >= 1
    requires Recorded(adj, key, start, depths, paths, depth) && Level(key, depths, paths, frontier, depth)
    requires ExpandedBelow(key, adj, depths, paths, depth, limit)
    ensures Recorded(adj, key, start, depths', paths', depth + 1) && Level(key, depths', paths', next, depth + 1)
    ensures ExpandedBelow(key, adj, depths', paths', depth + 1, limit)
    ensures depth - 1 >= limit ==> next == []
  {
    depths', next, paths' := depths, [], paths;
    LevelEmpty(key, depths, paths, depth + 1);
    var f := 0;
    while f < |frontier|
      invariant 0 <= f <= |frontier|
      invariant Recorded(adj, key, start, depths', paths', depth + 1) && Level(key, depths', paths', next, depth + 1)
      invariant Level(key, depths', paths', frontier, depth)
      invariant Grows(depths, paths, depths', paths') && NewAt(depths, depths', depth + 1)
      invariant depth <= limit ==> AllClosed(key, adj, depths', frontier, f, depth)
      invariant depth - 1 >= limit ==> next == []
    {
      ghost var before := depths';
      depths', next, paths' := ExpandOne(key, adj, start, frontier, f, depth, limit, depths, paths, depths', next, paths');
      if depth <= limit {
        AllClosedStep(key, adj, before, depths', frontier, f, depth);
      }
      f := f + 1;
    }
    ExpandedStep(key, adj, depths, paths, depths', paths', frontier, depth, limit);
  }

  /** With the queue empty, every key has a depth below the level reached. */
  lemma Finished<B, K>(adj: B -> seq<B>, key: B -> K, start: B, depths: map<K, int>, paths: map<K, seq<B>>,
                              depth: int, limit: int)
    requires 1 <= depth <= limit + 2
    requires Recorded(adj, key, start, depths, paths, depth) && Level(key, depths, paths, [], depth)
    requires ExpandedBelow(key, adj, depths, paths, depth, limit)
    ensures Recorded(adj, key, start, depths, paths, limit + 1)
    ensures ExpandedBelow(key, adj, depths, paths, limit + 1, limit)
  {
    assert forall k :: k in depths ==> depths[k] < depth;
  }

  /** `main`'s search: from the start at depth 1, level after level, until
      the queue is empty. Every key it records is the key of the last
      position of a game of as many positions as its depth, and every key
      whose depth less one is below the limit has had all its neighbours
      recorded at most one level deeper. */
  method Explore<B(==), K(==)>(key: B -> K, adj: B -> seq<B>, start: B, limit: nat)
    returns (depths: map<K, int>, ghost paths: map<K, seq<B>>)
    ensures Recorded(adj, key, start, depths, paths, limit + 1)
    ensures ExpandedBelow(key, adj, depths, paths, limit + 1, limit)
  {
    depths := map[key(start) := 1];
    paths := map[key(start) := [start]];
    var frontier := [start];
    var depth := 1;
    while |frontier| > 0
      invariant 1 <= depth <= limit + 2
      invariant Recorded(adj, key, start, depths, paths, depth) && Level(key, depths, paths, frontier, depth)
      invariant ExpandedBelow(key, adj, depths, paths, depth, limit)
      invariant depth == limit + 2 ==> frontier == []
      decreases limit + 2 - depth
    {
      depths, frontier, paths := ExpandLevel(key, adj, start, frontier, depth, limit, depths, paths);
      depth := depth + 1;
    }
    Finished(adj, key, start, depths, paths, depth, limit);
  }

  // What the search finds.

  /** Every game of at most limit + 1 positions ends at a key the search
      recorded, at a depth no larger than the game is long, provided that
      positions with one key are one position among those a game can reach. */
  lemma {:induction false} Shortest<B(!new), K>(adj: B -> seq<B>, key: B -> K, valid: B -> bool, start: B,
                                                 depths: map<K, int>, paths: map<K, seq<B>>, limit: nat, g: seq<B>)
    requires valid(start) && Invariant(adj, valid)
    requires Separates(key, valid)
    requires Recorded(adj, key, start, depths, paths, limit + 1)
    requires ExpandedBelow(key, adj, depths, paths, limit + 1, limit)
    requires Game(adj, start, g) && |g| <= limit + 1
    ensures key(Last(g)) in depths && depths[key(Last(g))] <= |g|
    decreases |g|
  {
    GameKeeps(adj, valid, start, g);
    if |g| > 1 {
      var front := g[..|g| - 1];
      Shortest(adj, key, valid, start, depths, paths, limit, front);
      var k := key(Last(front));
      GameKeeps(adj, valid, start, front);
      GameKeeps(adj, valid, start, paths[k]);
      assert Last(paths[k]) == Last(front);
      var j :| 0 <= j < |adj(Last(front))| && adj(Last(front))[j] == Last(g);
      assert Closed(key, adj, depths, Last(paths[k]), depths[k]);
    }
  }

  /** The search with what it finds: every key recorded is reached by a game
      of as many positions as its depth, and every game of at most
      limit + 1 positions ends at a recorded key no deeper than the game is
      long, when the keys tell apart the positions games can reach. */
  method Search<B(==, !new), K(==)>(key: B -> K, adj: B -> seq<B>, ghost valid: B -> bool, start: B, limit: nat)
    returns (depths: map<K, int>, ghost paths: map<K, seq<B>>)
    requires valid(start) && Invariant(adj, valid)
    requires Separates(key, valid)
    ensures forall k :: k in depths ==>
              && 1 <= depths[k] <= limit + 1 && k in paths && |paths[k]| == depths[k]
              && Game(adj, start, paths[k]) && key(Last(paths[k])) == k
    ensures forall g :: Game(adj, start, g) && |g| <= limit + 1 ==>
              key(Last(g)) in depths && depths[key(Last(g))] <= |g|
  {
    depths, paths := Explore(key, adj, start, limit);
    AllShortest(adj, key, valid, start, depths, paths, limit);
  }

  /** Every game within the limit is found (`Shortest`), for all games at
      once. */
  lemma AllShortest<B(!new), K>(adj: B -> seq<B>, key: B -> K, valid: B -> bool, start: B,
                          depths: map<K, int>, paths: map<K, seq<B>>, limit: nat)
    requires valid(start) && Invariant(adj, valid)
    requires Separates(key, valid)
    requires Recorded(adj, key, start, depths, paths, limit + 1)
    requires ExpandedBelow(key, adj, depths, paths, limit + 1, limit)
    ensures forall g :: Game(adj, start, g) && |g| <= limit + 1 ==>
              key(Last(g)) in depths && depths[key(Last(g))] <= |g|
  {
    forall g | Game(adj, start, g) && |g| <= limit + 1
      ensures key(Last(g)) in depths && depths[key(Last(g))] <= |g|
    {
      Shortest(adj, key, valid, start, depths, paths, limit, g);
    }
  }
}
