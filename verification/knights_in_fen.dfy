/** trabalhos/uva_10422_knights_in_fen/main.cpp: the 5x5 board of knights
    with one empty square, its string key, the boards one knight jump
    away, and the breadth-first search from the finished board that
    records, for every key within the move limit, one more than the
    fewest jumps that reach it. */
module KnightsInFen {
  import opened LevelSearch
  import opened Seqs

  /** `Board`: the rows, the empty square, and the move table. */
  datatype Board = Board(state: seq<string>, emptyX: int, emptyY: int, moveX: seq<int>, moveY: seq<int>)

  // The key of a board.

  /** The number of characters in the rows. */
  function TotalLength(rows: seq<string>): nat
  {
    if |rows| == 0 then 0 else TotalLength(rows[..|rows| - 1]) + |rows[|rows| - 1]|
  }

  /** `getKey`: the rows written one after another, in order (the first
      row, then each further row appended). */
  function Key(rows: seq<string>): (key: string)
    ensures |key| == TotalLength(rows)
  {
    if |rows| == 0 then "" else Key(rows[..|rows| - 1]) + rows[|rows| - 1]
  }

  /** Row i of the key starts right after the characters of the rows
      before it. */
  lemma {:induction false} KeyRows(rows: seq<string>, i: nat, j: nat)
    requires i < |rows| && j < |rows[i]|
    ensures TotalLength(rows[..i]) + j < |Key(rows)| && Key(rows)[TotalLength(rows[..i]) + j] == rows[i][j]
  {
    var front := rows[..|rows| - 1];
    if i < |rows| - 1 {
      assert rows[..i] == front[..i];
      assert front[i][j] == rows[i][j];
      KeyRows(front, i, j);
    } else {
      assert rows[..i] == front;
    }
  }

  /** With rows all of one width, row i starts at i times the width. */
  lemma {:induction false} UniformOffset(rows: seq<string>, width: nat, i: nat)
    requires i <= |rows| && forall k :: 0 <= k < |rows| ==> |rows[k]| == width
    ensures TotalLength(rows[..i]) == i * width
  {
    if i > 0 {
      assert rows[..i][..i - 1] == rows[..i - 1];
      UniformOffset(rows, width, i - 1);
    }
  }

  /** Rows of a square are as many as the width of each. */
  predicate Square(rows: seq<string>)
  {
    forall i :: 0 <= i < |rows| ==> |rows[i]| == |rows|
  }

  lemma SquareLength(rows: seq<string>)
    requires Square(rows)
    ensures TotalLength(rows) == |rows| * |rows|
  {
    UniformOffset(rows, |rows|, |rows|);
    assert rows[..|rows|] == rows;
  }

  lemma SquaresGrow(n: nat, m: nat)
    requires n < m
    ensures n * n < m * m
  {
    assert n * n <= n * m;
    assert n * m < m * m;
  }

  /** Two square boards with the same key have the same rows. */
  lemma {:induction false} KeyInjective(rows: seq<string>, other: seq<string>)
    requires |rows| >= 1 && |other| >= 1 && Square(rows) && Square(other)
    requires Key(rows) == Key(other)
    ensures rows == other
  {
    SquareLength(rows);
    SquareLength(other);
    var n := |rows|;
    if n < |other| {
      SquaresGrow(n, |other|);
    } else if |other| < n {
      SquaresGrow(|other|, n);
    }
    assert |other| == n;
    forall i | 0 <= i < n
      ensures rows[i] == other[i]
    {
      UniformOffset(rows, n, i);
      UniformOffset(other, n, i);
      forall j | 0 <= j < n
        ensures rows[i][j] == other[i][j]
      {
        KeyRows(rows, i, j);
        KeyRows(other, i, j);
      }
    }
  }

  // Knight jumps into the empty square.

  /** The move table of `main`: the eight knight jumps. */
  const MoveX: seq<int> := [-1, -1, 1, 1, -2, -2, 2, 2]
  const MoveY: seq<int> := [-2, 2, -2, 2, -1, 1, -1, 1]

  function Abs(x: int): nat
  {
    if x < 0 then -x else x
  }

  /** One square one way and two the other. */
  predicate KnightJump(dx: int, dy: int)
  {
    (Abs(dx) == 1 && Abs(dy) == 2) || (Abs(dx) == 2 && Abs(dy) == 1)
  }

  /** The table holds eight different knight jumps, so it holds them all. */
  lemma MoveTable()
    ensures |MoveX| == |MoveY| == 8
    ensures forall i :: 0 <= i < 8 ==> KnightJump(MoveX[i], MoveY[i])
    ensures forall i, k :: 0 <= i < k < 8 ==> (MoveX[i], MoveY[i]) != (MoveX[k], MoveY[k])
  {
  }

  /** Both coordinates inside the board; the check uses the number of rows
      for both, so the board is taken to be square. */
  predicate OnBoard(rows: seq<string>, x: int, y: int)
  {
    0 <= x < |rows| && 0 <= y < |rows|
  }

  /** What `getAdjacents` needs: a square board, the empty square on it,
      and a y entry for every x entry of the move table. */
  predicate Movable(b: Board)
  {
    Square(b.state) && OnBoard(b.state, b.emptyX, b.emptyY) && |b.moveX| <= |b.moveY|
  }

  /** Move i keeps the target on the board. */
  predicate Legal(b: Board, i: nat)
    requires Movable(b) && i < |b.moveX|
  {
    OnBoard(b.state, b.emptyX + b.moveX[i], b.emptyY + b.moveY[i])
  }

  /** The two assignments of `getAdjacents`: the empty square takes the
      target's character, then the target takes the empty square's. */
  function Swap(rows: seq<string>, x: nat, y: nat, nx: nat, ny: nat): (r: seq<string>)
    requires Square(rows) && OnBoard(rows, x, y) && OnBoard(rows, nx, ny)
    ensures Square(r) && |r| == |rows|
  {
    var first := rows[x := rows[x][y := rows[nx][ny]]];
    first[nx := first[nx][ny := rows[x][y]]]
  }

  /** The two squares trade characters and every other square keeps its
      own. */
  lemma SwapAt(rows: seq<string>, x: nat, y: nat, nx: nat, ny: nat)
    requires Square(rows) && OnBoard(rows, x, y) && OnBoard(rows, nx, ny)
    ensures forall i, j :: OnBoard(rows, i, j) ==>
              Swap(rows, x, y, nx, ny)[i][j] == if i == nx && j == ny then rows[x][y]
                                                else if i == x && j == y then rows[nx][ny]
                                                else rows[i][j]
  {
  }

  /** The board after move i: the knight on the target jumps into the
      empty square, which moves to the target. */
  function Successor(b: Board, i: nat): (r: Board)
    requires Movable(b) && i < |b.moveX| && Legal(b, i)
    ensures Movable(r) && |r.state| == |b.state|
    ensures r.moveX == b.moveX && r.moveY == b.moveY
    ensures r.emptyX == b.emptyX + b.moveX[i] && r.emptyY == b.emptyY + b.moveY[i]
  {
    var nx := b.emptyX + b.moveX[i];
    var ny := b.emptyY + b.moveY[i];
    Board(Swap(b.state, b.emptyX, b.emptyY, nx, ny), nx, ny, b.moveX, b.moveY)
  }

  /** The jump opposite to move i of the knight table. */
  function Opposite(i: nat): nat
    requires i < 8
  {
    if i < 4 then 3 - i else 11 - i
  }

  /** Undoing a move: the opposite jump from the successor is legal and
      gives the board back. */
  lemma SuccessorUndone(b: Board, i: nat)
    requires Movable(b) && b.moveX == MoveX && b.moveY == MoveY && i < 8 && Legal(b, i)
    ensures Opposite(i) < 8 && Legal(Successor(b, i), Opposite(i))
    ensures Successor(Successor(b, i), Opposite(i)) == b
  {
    var nx := b.emptyX + b.moveX[i];
    var ny := b.emptyY + b.moveY[i];
    OppositeJump(i);
    var c := Successor(b, i);
    assert c.emptyX + c.moveX[Opposite(i)] == b.emptyX && c.emptyY + c.moveY[Opposite(i)] == b.emptyY;
    SwapTwice(b.state, b.emptyX, b.emptyY, nx, ny);
    assert Successor(c, Opposite(i)).state == b.state;
  }

  /** The opposite jump goes back where the move came from. */
  lemma OppositeJump(i: nat)
    requires i < 8
    ensures Opposite(i) < 8 && MoveX[Opposite(i)] == -MoveX[i] && MoveY[Opposite(i)] == -MoveY[i]
  {
  }

  /** Swapping the same two squares twice changes nothing. */
  lemma SwapTwice(rows: seq<string>, x: nat, y: nat, nx: nat, ny: nat)
    requires Square(rows) && OnBoard(rows, x, y) && OnBoard(rows, nx, ny)
    ensures Swap(Swap(rows, x, y, nx, ny), nx, ny, x, y) == rows
  {
    var r := Swap(Swap(rows, x, y, nx, ny), nx, ny, x, y);
    SwapAt(rows, x, y, nx, ny);
    SwapAt(Swap(rows, x, y, nx, ny), nx, ny, x, y);
    forall i | 0 <= i < |rows|
      ensures r[i] == rows[i]
    {
      assert forall j :: 0 <= j < |rows| ==> r[i][j] == rows[i][j];
    }
  }

  /** The legal moves from index i on, in table order. */
  function LegalMoves(b: Board, i: nat): (moves: seq<nat>)
    requires Movable(b) && i <= |b.moveX|
    ensures |moves| <= |b.moveX| - i
    ensures forall k :: 0 <= k < |moves| ==> i <= moves[k] < |b.moveX| && Legal(b, moves[k])
    ensures forall k, l :: 0 <= k < l < |moves| ==> moves[k] < moves[l]
    ensures forall j :: i <= j < |b.moveX| && Legal(b, j) ==> j in moves
    decreases |b.moveX| - i
  {
    if i == |b.moveX| then []
    else if Legal(b, i) then [i] + LegalMoves(b, i + 1)
    else LegalMoves(b, i + 1)
  }

  /** `getAdjacents`: one board per legal move, in table order. */
  function Adjacents(b: Board): (r: seq<Board>)
    requires Movable(b)
    ensures |r| == |LegalMoves(b, 0)| <= |b.moveX|
  {
    var moves := LegalMoves(b, 0);
    seq(|moves|, k requires 0 <= k < |moves| => Successor(b, moves[k]))
  }

  /** Each adjacent board comes from a legal move ... */
  lemma AdjacentIsMove(b: Board, k: nat) returns (i: nat)
    requires Movable(b) && k < |Adjacents(b)|
    ensures i < |b.moveX| && Legal(b, i) && Adjacents(b)[k] == Successor(b, i)
  {
    i := LegalMoves(b, 0)[k];
  }

  /** ... and each legal move gives an adjacent board. */
  lemma MoveIsAdjacent(b: Board, i: nat)
    requires Movable(b) && i < |b.moveX| && Legal(b, i)
    ensures Successor(b, i) in Adjacents(b)
  {
    var moves := LegalMoves(b, 0);
    assert i in moves;
    var k :| 0 <= k < |moves| && moves[k] == i;
    assert Adjacents(b)[k] == Successor(b, i);
  }

  /** A board is adjacent exactly when some legal move produces it. */
  lemma AdjacentMoves(b: Board, c: Board)
    requires Movable(b)
    ensures c in Adjacents(b) <==> exists i :: 0 <= i < |b.moveX| && Legal(b, i) && c == Successor(b, i)
  {
    if c in Adjacents(b) {
      var k :| 0 <= k < |Adjacents(b)| && Adjacents(b)[k] == c;
      var i := AdjacentIsMove(b, k);
    }
    if exists i :: 0 <= i < |b.moveX| && Legal(b, i) && c == Successor(b, i) {
      var i :| 0 <= i < |b.moveX| && Legal(b, i) && c == Successor(b, i);
      MoveIsAdjacent(b, i);
    }
  }

  // Boards the search can meet.

  /** A board of the search: square and non-empty, the knight move table,
      and the empty square the only blank character. */
  ghost predicate Valid(b: Board)
  {
    && |b.state| >= 1 && Movable(b) && b.moveX == MoveX && b.moveY == MoveY
    && forall i, j :: OnBoard(b.state, i, j) ==> (b.state[i][j] == ' ' <==> i == b.emptyX && j == b.emptyY)
  }

  /** A knight jump moves the empty square, so the blank stays unique. */
  lemma SuccessorValid(b: Board, i: nat)
    requires Valid(b) && i < |b.moveX| && Legal(b, i)
    ensures Valid(Successor(b, i))
  {
    MoveTable();
    assert KnightJump(MoveX[i], MoveY[i]);
    var c := Successor(b, i);
    SwapAt(b.state, b.emptyX, b.emptyY, c.emptyX, c.emptyY);
    assert c.emptyX != b.emptyX || c.emptyY != b.emptyY;
  }

  /** The key tells valid boards apart, empty square included. */
  lemma SameKeySameBoard(b: Board, c: Board)
    requires Valid(b) && Valid(c) && Key(b.state) == Key(c.state)
    ensures b == c
  {
    KeyInjective(b.state, c.state);
    assert b.state[b.emptyX][b.emptyY] == ' ';
  }

  // The search of `main` on knight boards.

  /** `getKey` of a board. */
  function BoardKey(b: Board): (key: string)
    ensures |key| == TotalLength(b.state)
  {
    Key(b.state)
  }

  /** `getAdjacents`, for a board whose empty square is on it; the search
      meets no other board. */
  function Neighbours(b: Board): (r: seq<Board>)
    ensures |r| <= |b.moveX|
  {
    if Movable(b) then Adjacents(b) else []
  }

  /** Moves are reversible: a board is a neighbour of each of its
      neighbours. */
  lemma NeighboursReversible(b: Board, c: Board)
    requires Valid(b) && c in Neighbours(b)
    ensures Valid(c) && b in Neighbours(c)
  {
    AdjacentMoves(b, c);
    var i :| 0 <= i < |b.moveX| && Legal(b, i) && c == Successor(b, i);
    SuccessorValid(b, i);
    SuccessorUndone(b, i);
    AdjacentMoves(c, b);
  }

  lemma NeighboursValid()
    ensures Invariant(Neighbours, Valid)
  {
    forall b, c | Valid(b) && c in Neighbours(b)
      ensures Valid(c)
    {
      NeighboursReversible(b, c);
    }
  }

  lemma NeighboursUndone()
    ensures Reversible(Neighbours, Valid)
  {
    forall b, c | Valid(b) && c in Neighbours(b)
      ensures b in Neighbours(c)
    {
      NeighboursReversible(b, c);
    }
  }

  lemma KeysApart()
    ensures Separates(BoardKey, Valid)
  {
    forall b, c | Valid(b) && Valid(c) && BoardKey(b) == BoardKey(c)
      ensures b == c
    {
      SameKeySameBoard(b, c);
    }
  }

  /** The number of moves within which `main` calls a board solvable is
      below this. */
  const MaxMoves: nat := 11

  /** `finalState`, with the empty square in the middle and the knight move
      table. */
  function FinalBoard(): Board
  {
    Board(["11111", "01111", "00 11", "00001", "00000"], 2, 2, MoveX, MoveY)
  }

  lemma FinalValid()
    ensures Valid(FinalBoard())
  {
    var b := FinalBoard();
    assert Square(b.state);
    forall i, j | OnBoard(b.state, i, j)
      ensures b.state[i][j] == ' ' <==> i == 2 && j == 2
    {
      assert i == 0 || i == 1 || i == 2 || i == 3 || i == 4;
    }
  }

  datatype Verdict = Solvable(moves: nat) | Unsolvable

  /** The line `main` prints for a key: the depth recorded for it less one,
      where a key never recorded reads as depth 0, and any count below 0 or
      from MaxMoves on is unsolvable. */
  function Answer(depths: map<string, int>, key: string): (v: Verdict)
    ensures v.Solvable? <==> key in depths && 1 <= depths[key] <= MaxMoves
    ensures v.Solvable? ==> v.moves == depths[key] - 1
  {
    var depth := (if key in depths then depths[key] else 0) - 1;
    if depth < 0 || depth >= MaxMoves then Unsolvable else Solvable(depth)
  }

  /** `main` for one set of rows: the search from the finished board, then
      the answer for the key of the rows. A solvable answer counts the moves
      of a game from the finished board to a board with that key, and no
      shorter game within the limit reaches it. */
  method Solve(rows: seq<string>) returns (v: Verdict)
    ensures v.Solvable? ==>
              v.moves < MaxMoves
              && exists g :: Game(Neighbours, FinalBoard(), g) && |g| == v.moves + 1 && BoardKey(Last(g)) == Key(rows)
    ensures forall g :: Game(Neighbours, FinalBoard(), g) && |g| <= MaxMoves && BoardKey(Last(g)) == Key(rows) ==>
              v.Solvable? && v.moves + 1 <= |g|
  {
    FinalValid();
    NeighboursValid();
    KeysApart();
    var depths, paths := Search(BoardKey, Neighbours, Valid, FinalBoard(), MaxMoves);
    v := Answer(depths, Key(rows));
    if v.Solvable? {
      var g := paths[Key(rows)];
      assert Game(Neighbours, FinalBoard(), g) && |g| == v.moves + 1 && BoardKey(Last(g)) == Key(rows);
    }
  }

  /** The search runs from the finished board, yet `main` reports the moves
      from the given board to the finished one: since every jump can be
      undone, a game from a valid board to the finished board, played
      backwards, is a game of the same length from the finished board, and
      the other way round. */
  lemma BothWays(start: Board, g: seq<Board>)
    requires Valid(start) && Game(Neighbours, start, g) && Last(g) == FinalBoard()
    ensures Game(Neighbours, FinalBoard(), Reverse(g)) && Last(Reverse(g)) == start
  {
    NeighboursValid();
    NeighboursUndone();
    GameReversed(Neighbours, Valid, start, g);
  }

  lemma BothWaysBack(g: seq<Board>)
    requires Game(Neighbours, FinalBoard(), g)
    ensures Game(Neighbours, Last(g), Reverse(g)) && Last(Reverse(g)) == FinalBoard()
  {
    FinalValid();
    NeighboursValid();
    NeighboursUndone();
    GameReversed(Neighbours, Valid, FinalBoard(), g);
  }
}
