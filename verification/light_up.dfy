/** The `Board` of trabalhos/uri_1275_light_up/light_up.cpp: a grid of
    squares and numbered barriers on which lamps are placed; a lamp lights
    its row and column up to the nearest barrier or edge, a numbered barrier
    wants exactly that many lamps next to it, and a board wins when every
    square is lit and every barrier is satisfied. */
module LightUp {

  // The board.

  /** The state of a square that is not a barrier. */
  datatype Square = Empty | Lit | Lamp | Blocked

  /** A cell is a square or a barrier; a barrier's number is `ANY` (-1) or
      the number of lamps it wants around it. */
  datatype Cell = Open(square: Square) | Barrier(number: int)

  /** The `ANY` barrier, satisfied by any number of lamps. */
  const AnyNumber := -1

  type Grid = seq<seq<Cell>>

  /** The cells and `numLamps`. */
  datatype Board = Board(grid: Grid, lamps: int)

  function Width(g: Grid): nat
  {
    if |g| == 0 then 0 else |g[0]|
  }

  /** Every row is as long as the first: the shape the constructor builds. */
  predicate Rect(g: Grid)
  {
    forall i :: 0 <= i < |g| ==> |g[i]| == Width(g)
  }

  predicate In(g: Grid, r: int, c: int)
  {
    0 <= r < |g| && 0 <= c < |g[r]|
  }

  /** Same size, and the same barriers in the same places. */
  ghost predicate SameShape(g: Grid, h: Grid)
  {
    && |g| == |h|
    && (forall i :: 0 <= i < |g| ==> |g[i]| == |h[i]|)
    && (forall i, j :: 0 <= i < |g| && 0 <= j < |g[i]| ==> (g[i][j].Barrier? || h[i][j].Barrier? ==> g[i][j] == h[i][j]))
  }

  /** Top, right, bottom and left: the `adjacency` table. */
  function Directions(): seq<(int, int)>
  {
    [(-1, 0), (0, 1), (1, 0), (0, -1)]
  }

  /** `Board(numRows, numCols)`: every cell an EMPTY square, no lamps. */
  function NewBoard(rows: nat, cols: nat): (b: Board)
    ensures Rect(b.grid) && |b.grid| == rows && (rows > 0 ==> Width(b.grid) == cols)
    ensures forall i, j :: In(b.grid, i, j) ==> b.grid[i][j] == Open(Empty)
    ensures b.lamps == 0
  {
    Board(seq(rows, _ => seq(cols, _ => Open(Empty))), 0)
  }

  // Lighting and barriers.

  /** A barrier, or a square that is lit or holds a lamp. */
  predicate LitCell(x: Cell)
  {
    x.Barrier? || x.square == Lit || x.square == Lamp
  }

  /** Every square of the board is lit or holds a lamp. */
  ghost predicate Lighted(g: Grid)
  {
    forall i, j :: In(g, i, j) ==> LitCell(g[i][j])
  }

  /** `isFullyLit`: the row-by-row scan that stops at the first dark square.
      It answers whether every square is lit or holds a lamp; EMPTY and
      BLOCKED squares are dark. */
  method IsFullyLit(b: Board) returns (lit: bool)
    ensures lit <==> Lighted(b.grid)
  {
    var g: Grid := b.grid;
    lit := true;
    var i := 0;
    while i < |g| && lit
      invariant 0 <= i <= |g|
      invariant lit <==> forall r, c :: 0 <= r < i && 0 <= c < |g[r]| ==> LitCell(g[r][c])
    {
      var j := 0;
      while j < |g[i]| && lit
        invariant 0 <= j <= |g[i]|
        invariant lit <==> (forall r, c :: 0 <= r < i && 0 <= c < |g[r]| ==> LitCell(g[r][c])) && forall c :: 0 <= c < j ==> LitCell(g[i][c])
      {
        if g[i][j].Open? {
          lit := g[i][j].square == Lit;
          lit := lit || g[i][j].square == Lamp;
        }
        j := j + 1;
      }
      if lit {
        assert j == |g[i]|;
      }
      i := i + 1;
    }
  }

  predicate IsLamp(x: Cell)
  {
    x == Open(Lamp)
  }

  /** The number of the listed neighbours of (row, col) that hold a lamp. */
  function LampsNear(g: Grid, row: int, col: int, dirs: seq<(int, int)>): nat
  {
    if |dirs| == 0 then 0
    else
      var r, c := row + dirs[0].0, col + dirs[0].1;
      (if In(g, r, c) && IsLamp(g[r][c]) then 1 else 0) + LampsNear(g, row, col, dirs[1..])
  }

  /** 1 when (r, c) is on the board and holds a lamp. */
  function LampAt(g: Grid, r: int, c: int): nat
  {
    if In(g, r, c) && IsLamp(g[r][c]) then 1 else 0
  }

  /** Counting over the direction table is counting the four sides. */
  lemma LampsAround(g: Grid, row: int, col: int)
    ensures LampsNear(g, row, col, Directions())
            == LampAt(g, row - 1, col) + LampAt(g, row, col + 1) + LampAt(g, row + 1, col) + LampAt(g, row, col - 1)
  {
    var d := Directions();
    assert d[3..][1..] == [] && d[2..][1..] == d[3..] && d[1..][1..] == d[2..];
    assert LampsNear(g, row, col, d[3..]) == LampAt(g, row, col - 1);
    assert LampsNear(g, row, col, d[2..]) == LampAt(g, row + 1, col) + LampAt(g, row, col - 1);
    assert LampsNear(g, row, col, d[1..]) == LampAt(g, row, col + 1) + LampAt(g, row + 1, col) + LampAt(g, row, col - 1);
  }

  /** `isValidBarrier`: false off the board or on a square, true for an ANY
      barrier, and otherwise whether the lamps on the four sides number
      exactly the barrier's number. */
  function IsValidBarrier(g: Grid, row: int, col: int): (ok: bool)
    requires Rect(g)
    ensures ok <==> In(g, row, col) && g[row][col].Barrier?
                    && (g[row][col].number == AnyNumber || g[row][col].number == LampsNear(g, row, col, Directions()))
  {
    if !In(g, row, col) || !g[row][col].Barrier? then false
    else if g[row][col].number == AnyNumber then true
    else
      var top := if row - 1 >= 0 && IsLamp(g[row - 1][col]) then 1 else 0;
      var right := if col + 1 < |g[row]| && IsLamp(g[row][col + 1]) then 1 else 0;
      var bottom := if row + 1 < |g| && IsLamp(g[row + 1][col]) then 1 else 0;
      var left := if col - 1 >= 0 && IsLamp(g[row][col - 1]) then 1 else 0;
      LampsAround(g, row, col);
      g[row][col].number == top + right + bottom + left
  }

  /** Every barrier of the board is satisfied. */
  ghost predicate BarriersValid(g: Grid)
    requires Rect(g)
  {
    forall i, j :: In(g, i, j) && g[i][j].Barrier? ==> IsValidBarrier(g, i, j)
  }

  /** `isAllBarriersValid`: the scan that stops at the first unsatisfied
      barrier. */
  method IsAllBarriersValid(b: Board) returns (valid: bool)
    requires Rect(b.grid)
    ensures valid <==> BarriersValid(b.grid)
  {
    var g: Grid := b.grid;
    valid := true;
    var i := 0;
    while i < |g| && valid
      invariant 0 <= i <= |g|
      invariant valid <==> forall r, c :: 0 <= r < i && 0 <= c < |g[r]| && g[r][c].Barrier? ==> IsValidBarrier(g, r, c)
    {
      var j := 0;
      while j < |g[i]| && valid
        invariant 0 <= j <= |g[i]|
        invariant valid <==> (forall r, c :: 0 <= r < i && 0 <= c < |g[r]| && g[r][c].Barrier? ==> IsValidBarrier(g, r, c))
                             && forall c :: 0 <= c < j && g[i][c].Barrier? ==> IsValidBarrier(g, i, c)
      {
        if g[i][j].Barrier? && !IsValidBarrier(g, i, j) {
          valid := false;
        }
        j := j + 1;
      }
      if valid {
        assert j == |g[i]|;
      }
      i := i + 1;
    }
  }

  /** `isWinningConfig`: fully lit with every barrier satisfied. */
  method IsWinningConfig(b: Board) returns (win: bool)
    requires Rect(b.grid)
    ensures win <==> Lighted(b.grid) && BarriersValid(b.grid)
  {
    win := true;
    var lit := IsFullyLit(b);
    if !lit {
      win := false;
    } else {
      var valid := IsAllBarriersValid(b);
      if !valid {
        win := false;
      }
    }
  }

  // Blocking.

  /** (i, j) is one of the listed neighbours of (row, col). */
  predicate Near(row: int, col: int, dirs: seq<(int, int)>, i: int, j: int)
    decreases |dirs|
  {
    |dirs| > 0 && ((i == row + dirs[0].0 && j == col + dirs[0].1) || Near(row, col, dirs[1..], i, j))
  }

  /** (i, j) shares a side with (row, col). */
  predicate Adjacent(row: int, col: int, i: int, j: int)
  {
    (i == row && (j == col - 1 || j == col + 1)) || (j == col && (i == row - 1 || i == row + 1))
  }

  /** The four directions reach exactly the cells sharing a side. */
  lemma NearDirections(row: int, col: int, i: int, j: int)
    ensures Near(row, col, Directions(), i, j) <==> Adjacent(row, col, i, j)
  {
    var d := Directions();
    assert d[1..] == [(0, 1), (1, 0), (0, -1)] && d[1..][1..] == [(1, 0), (0, -1)];
    assert d[1..][1..][1..] == [(0, -1)] && d[1..][1..][1..][1..] == [];
  }

  /** Marks the listed neighbours of (row, col) that are EMPTY squares as
      BLOCKED; nothing else changes. */
  function BlockDirs(g: Grid, row: int, col: int, dirs: seq<(int, int)>): (h: Grid)
    requires Rect(g)
    ensures Rect(h) && SameShape(g, h)
    ensures forall i, j :: In(g, i, j) ==>
              h[i][j] == if Near(row, col, dirs, i, j) && g[i][j] == Open(Empty) then Open(Blocked) else g[i][j]
    decreases |dirs|
  {
    if |dirs| == 0 then g
    else
      var r, c := row + dirs[0].0, col + dirs[0].1;
      var next := if In(g, r, c) && g[r][c] == Open(Empty) then g[r := g[r][c := Open(Blocked)]] else g;
      BlockDirs(next, row, col, dirs[1..])
  }

  /** `blockAround`: false and no change unless (row, col) is a ZERO
      barrier; otherwise the EMPTY squares on its four sides become BLOCKED
      and nothing else changes. */
  function BlockAround(b: Board, row: int, col: int): (r: (bool, Board))
    requires Rect(b.grid) && In(b.grid, row, col)
    ensures r.0 <==> b.grid[row][col] == Barrier(0)
    ensures !r.0 ==> r.1 == b
    ensures r.0 ==> r.1.lamps == b.lamps && Rect(r.1.grid) && SameShape(b.grid, r.1.grid)
    ensures r.0 ==> forall i, j :: In(b.grid, i, j) ==>
              r.1.grid[i][j] == if Adjacent(row, col, i, j) && b.grid[i][j] == Open(Empty) then Open(Blocked) else b.grid[i][j]
  {
    if !b.grid[row][col].Barrier? || b.grid[row][col].number != 0 then (false, b)
    else
      var h := BlockDirs(b.grid, row, col, Directions());
      assert forall i, j :: Near(row, col, Directions(), i, j) <==> Adjacent(row, col, i, j) by {
        forall i, j {
          NearDirections(row, col, i, j);
        }
      }
      (true, Board(h, b.lamps))
  }

  /** Blocking around a ZERO barrier a second time changes nothing. */
  lemma BlockAroundTwice(b: Board, row: int, col: int)
    requires Rect(b.grid) && In(b.grid, row, col) && b.grid[row][col] == Barrier(0)
    ensures BlockAround(BlockAround(b, row, col).1, row, col) == BlockAround(b, row, col)
  {
    var once := BlockAround(b, row, col).1;
    assert once.grid[row][col] == Barrier(0);
    var twice := BlockAround(once, row, col).1;
    BlockedStays(b.grid, once.grid, twice.grid, row, col);
  }

  /** Blocking the EMPTY neighbours again finds none left to block. */
  lemma BlockedStays(g: Grid, once: Grid, twice: Grid, row: int, col: int)
    requires SameShape(g, once) && SameShape(once, twice)
    requires forall i, j :: In(g, i, j) ==>
               once[i][j] == if Adjacent(row, col, i, j) && g[i][j] == Open(Empty) then Open(Blocked) else g[i][j]
    requires forall i, j :: In(once, i, j) ==>
               twice[i][j] == if Adjacent(row, col, i, j) && once[i][j] == Open(Empty) then Open(Blocked) else once[i][j]
    ensures twice == once
  {
    forall i, j | In(once, i, j)
      ensures twice[i][j] == once[i][j]
    {
      assert In(g, i, j);
    }
    SameGrid(twice, once);
  }

  /** Grids with the same rows and the same cells are equal. */
  lemma SameGrid(g: Grid, h: Grid)
    requires |g| == |h| && (forall i :: 0 <= i < |g| ==> |g[i]| == |h[i]|)
    requires forall i, j :: In(g, i, j) ==> g[i][j] == h[i][j]
    ensures g == h
  {
    forall i | 0 <= i < |g|
      ensures g[i] == h[i]
    {
      assert forall j :: 0 <= j < |g[i]| ==> In(g, i, j);
    }
  }

  // Lamps.

  /** No barrier among cells lo .. hi-1 of the row. */
  ghost predicate RowClear(g: Grid, r: nat, lo: int, hi: int)
    requires r < |g| && 0 <= lo && hi <= |g[r]|
  {
    forall k :: lo <= k < hi ==> g[r][k].Open?
  }

  /** No barrier among cells lo .. hi-1 of the column. */
  ghost predicate ColClear(g: Grid, c: nat, lo: int, hi: int)
    requires Rect(g) && c < Width(g) && 0 <= lo && hi <= |g|
  {
    forall k :: lo <= k < hi ==> g[k][c].Open?
  }

  /** (i, j) is another square that a lamp at (row, col) shines on: in the
      same row or column with no barrier in between, itself included. */
  ghost predicate Sees(g: Grid, row: int, col: int, i: int, j: int)
    requires Rect(g) && In(g, row, col) && In(g, i, j)
  {
    || (i == row && j < col && RowClear(g, row, j, col))
    || (i == row && col < j && RowClear(g, row, col + 1, j + 1))
    || (j == col && i < row && ColClear(g, col, i, row))
    || (j == col && row < i && ColClear(g, col, row + 1, i + 1))
  }

  /** `for (i = col - 1; i >= 0 && !isBarrier; i--)`: lights the row
      leftwards from i up to a barrier or the edge. */
  function LightLeft(g: Grid, row: nat, i: int): (h: Grid)
    requires Rect(g) && row < |g| && i < |g[row]|
    ensures Rect(h) && SameShape(g, h)
    ensures forall a, c :: In(g, a, c) ==>
              h[a][c] == if a == row && c <= i && RowClear(g, row, c, i + 1) then Open(Lit) else g[a][c]
    decreases i + 1
  {
    if i < 0 || g[row][i].Barrier? then g
    else LightLeft(g[row := g[row][i := Open(Lit)]], row, i - 1)
  }

  /** The rightward loop of the row, from i. */
  function LightRight(g: Grid, row: nat, i: nat): (h: Grid)
    requires Rect(g) && row < |g|
    ensures Rect(h) && SameShape(g, h)
    ensures forall a, c :: In(g, a, c) ==>
              h[a][c] == if a == row && i <= c && RowClear(g, row, i, c + 1) then Open(Lit) else g[a][c]
    decreases |g[row]| - i
  {
    if i >= |g[row]| || g[row][i].Barrier? then g
    else LightRight(g[row := g[row][i := Open(Lit)]], row, i + 1)
  }

  /** The upward loop of the column, from row i. */
  function LightUp(g: Grid, col: nat, i: int): (h: Grid)
    requires Rect(g) && col < Width(g) && i < |g|
    ensures Rect(h) && SameShape(g, h)
    ensures forall a, c :: In(g, a, c) ==>
              h[a][c] == if c == col && a <= i && ColClear(g, col, a, i + 1) then Open(Lit) else g[a][c]
    decreases i + 1
  {
    if i < 0 || g[i][col].Barrier? then g
    else LightUp(g[i := g[i][col := Open(Lit)]], col, i - 1)
  }

  /** The downward loop of the column, from row i. */
  function LightDown(g: Grid, col: nat, i: nat): (h: Grid)
    requires Rect(g) && col < Width(g)
    ensures Rect(h) && SameShape(g, h)
    ensures forall a, c :: In(g, a, c) ==>
              h[a][c] == if c == col && i <= a && ColClear(g, col, i, a + 1) then Open(Lit) else g[a][c]
    decreases |g| - i
  {
    if i >= |g| || g[i][col].Barrier? then g
    else LightDown(g[i := g[i][col := Open(Lit)]], col, i + 1)
  }

  /** `insertLamp`: fails, leaving the board as it is, unless (row, col) is
      an EMPTY square on the board; otherwise the square holds a lamp, one
      more lamp is counted, every square the lamp sees is LIT, and nothing
      else changes. */
  function InsertLamp(b: Board, row: int, col: int): (r: (bool, Board))
    requires Rect(b.grid)
    ensures r.0 <==> In(b.grid, row, col) && b.grid[row][col] == Open(Empty)
    ensures !r.0 ==> r.1 == b
    ensures Rect(r.1.grid) && SameShape(b.grid, r.1.grid)
    ensures r.0 ==> r.1.lamps == b.lamps + 1
    ensures r.0 ==> forall i, j :: In(b.grid, i, j) ==>
              r.1.grid[i][j] == if i == row && j == col then Open(Lamp)
                                else if Sees(b.grid, row, col, i, j) then Open(Lit)
                                else b.grid[i][j]
  {
    if !In(b.grid, row, col) || b.grid[row][col].Barrier? || b.grid[row][col].square == Blocked
       || b.grid[row][col].square == Lit || b.grid[row][col].square == Lamp
    then (false, b)
    else
      assert b.grid[row][col].Open? && b.grid[row][col].square == Empty;
      var g0 := b.grid[row := b.grid[row][col := Open(Lamp)]];
      var g1 := LightLeft(g0, row, col - 1);
      var g2 := LightRight(g1, row, col + 1);
      var g3 := LightUp(g2, col, row - 1);
      var g4 := LightDown(g3, col, row + 1);
      LightAll(b.grid, g0, g1, g2, g3, g4, row, col);
      (true, Board(g4, b.lamps + 1))
  }

  /** The four loops of `insertLamp` together light what the lamp sees. */
  lemma LightAll(g: Grid, g0: Grid, g1: Grid, g2: Grid, g3: Grid, g4: Grid, row: nat, col: nat)
    requires Rect(g) && In(g, row, col) && g[row][col] == Open(Empty)
    requires g0 == g[row := g[row][col := Open(Lamp)]]
    requires Rect(g0) && Rect(g1) && Rect(g2) && Rect(g3)
    requires SameShape(g0, g1) && SameShape(g1, g2) && SameShape(g2, g3) && SameShape(g3, g4)
    requires forall a, c :: In(g0, a, c) ==>
               g1[a][c] == if a == row && c <= col - 1 && RowClear(g0, row, c, col) then Open(Lit) else g0[a][c]
    requires forall a, c :: In(g1, a, c) ==>
               g2[a][c] == if a == row && col + 1 <= c && RowClear(g1, row, col + 1, c + 1) then Open(Lit) else g1[a][c]
    requires forall a, c :: In(g2, a, c) ==>
               g3[a][c] == if c == col && a <= row - 1 && ColClear(g2, col, a, row) then Open(Lit) else g2[a][c]
    requires forall a, c :: In(g3, a, c) ==>
               g4[a][c] == if c == col && row + 1 <= a && ColClear(g3, col, row + 1, a + 1) then Open(Lit) else g3[a][c]
    ensures SameShape(g, g4)
    ensures forall i, j :: In(g, i, j) ==>
              g4[i][j] == if i == row && j == col then Open(Lamp) else if Sees(g, row, col, i, j) then Open(Lit) else g[i][j]
  {
    assert SameShape(g, g0);
    forall i, j | In(g, i, j)
      ensures g4[i][j] == if i == row && j == col then Open(Lamp) else if Sees(g, row, col, i, j) then Open(Lit) else g[i][j]
    {
      assert In(g0, i, j) && In(g1, i, j) && In(g2, i, j) && In(g3, i, j);
      if i == row && j < col {
        assert RowClear(g0, row, j, col) <==> RowClear(g, row, j, col);
      } else if i == row && col < j {
        assert RowClear(g1, row, col + 1, j + 1) <==> RowClear(g, row, col + 1, j + 1);
      } else if j == col && i < row {
        assert ColClear(g2, col, i, row) <==> ColClear(g, col, i, row);
      } else if j == col && row < i {
        assert ColClear(g3, col, row + 1, i + 1) <==> ColClear(g, col, row + 1, i + 1);
      }
    }
  }

  // Consistent boards.

  /** Every square a lamp sees is LIT: the boards that lamp insertion
      builds from an empty board. */
  ghost predicate Consistent(g: Grid)
    requires Rect(g)
  {
    forall a, c, i, j :: In(g, a, c) && IsLamp(g[a][c]) && In(g, i, j) && Sees(g, a, c, i, j) ==> g[i][j] == Open(Lit)
  }

  /** Between two squares, seeing is mutual. */
  lemma SeesSymmetric(g: Grid, a: int, c: int, i: int, j: int)
    requires Rect(g) && In(g, a, c) && In(g, i, j) && g[a][c].Open? && g[i][j].Open?
    ensures Sees(g, a, c, i, j) <==> Sees(g, i, j, a, c)
  {
    if a == i && j < c {
      assert RowClear(g, a, j, c) <==> RowClear(g, a, j + 1, c + 1);
    } else if a == i && c < j {
      assert RowClear(g, a, c + 1, j + 1) <==> RowClear(g, a, c, j);
    } else if c == j && i < a {
      assert ColClear(g, c, i, a) <==> ColClear(g, c, i + 1, a + 1);
    } else if c == j && a < i {
      assert ColClear(g, c, a + 1, i + 1) <==> ColClear(g, c, a, i);
    }
  }

  /** On a consistent board a lamp goes in only where no lamp shines, so
      the board stays consistent and every lamp already placed stays. */
  lemma InsertConsistent(b: Board, row: int, col: int)
    requires Rect(b.grid) && Consistent(b.grid)
    ensures Consistent(InsertLamp(b, row, col).1.grid)
    ensures forall i, j :: In(b.grid, i, j) && IsLamp(b.grid[i][j]) ==> IsLamp(InsertLamp(b, row, col).1.grid[i][j])
  {
    var r := InsertLamp(b, row, col);
    if r.0 {
      var g, h := b.grid, r.1.grid;
      forall i, j | In(g, i, j) && IsLamp(g[i][j])
        ensures !Sees(g, row, col, i, j)
      {
        SeesSymmetric(g, row, col, i, j);
      }
      forall a, c, i, j | In(h, a, c) && IsLamp(h[a][c]) && In(h, i, j) && Sees(h, a, c, i, j)
        ensures h[i][j] == Open(Lit)
      {
        assert In(g, a, c) && In(g, i, j);
        assert Sees(g, a, c, i, j) by {
          ClearSame(g, h, a, c, i, j);
        }
        if a != row || c != col {
          assert IsLamp(g[a][c]);
        }
      }
    }
  }

  /** Seeing depends only on where the barriers are. */
  lemma ClearSame(g: Grid, h: Grid, a: int, c: int, i: int, j: int)
    requires Rect(g) && Rect(h) && SameShape(g, h) && In(g, a, c) && In(g, i, j)
    ensures Sees(g, a, c, i, j) <==> Sees(h, a, c, i, j)
  {
    if a == i && j < c {
      assert RowClear(g, a, j, c) <==> RowClear(h, a, j, c);
    } else if a == i && c < j {
      assert RowClear(g, a, c + 1, j + 1) <==> RowClear(h, a, c + 1, j + 1);
    } else if c == j && i < a {
      assert ColClear(g, c, i, a) <==> ColClear(h, c, i, a);
    } else if c == j && a < i {
      assert ColClear(g, c, a + 1, i + 1) <==> ColClear(h, c, a + 1, i + 1);
    }
  }

  /** A new board is consistent, has every barrier satisfied (it has none)
      and, when it has a square, is not fully lit. */
  lemma NewBoardState(rows: nat, cols: nat)
    ensures Consistent(NewBoard(rows, cols).grid) && BarriersValid(NewBoard(rows, cols).grid)
    ensures Lighted(NewBoard(rows, cols).grid) <==> rows == 0 || cols == 0
  {
    var g := NewBoard(rows, cols).grid;
    if rows > 0 && cols > 0 {
      assert In(g, 0, 0) && !LitCell(g[0][0]);
    }
  }

  // Candidate boards around a numbered barrier.

  /** The sides named by indices into the direction table. */
  function Sides(idx: seq<nat>): (d: seq<(int, int)>)
    requires forall k :: 0 <= k < |idx| ==> idx[k] < 4
    ensures |d| == |idx|
    ensures forall k :: 0 <= k < |idx| ==> d[k] == Directions()[idx[k]]
  {
    if |idx| == 0 then [] else [Directions()[idx[0]]] + Sides(idx[1..])
  }

  /** Inserts lamps on the listed sides of (row, col) in order, telling
      whether at least one went in: the lamp count grows by one per lamp
      inserted, and the barriers stay where they are. */
  function Place(b: Board, row: int, col: int, dirs: seq<(int, int)>): (r: (bool, Board))
    requires Rect(b.grid)
    ensures Rect(r.1.grid) && SameShape(b.grid, r.1.grid)
    ensures b.lamps <= r.1.lamps <= b.lamps + |dirs|
    ensures r.0 <==> r.1.lamps > b.lamps
    decreases |dirs|
  {
    if |dirs| == 0 then (false, b)
    else
      var first := InsertLamp(b, row + dirs[0].0, col + dirs[0].1);
      var rest := Place(first.1, row, col, dirs[1..]);
      (first.0 || rest.0, rest.1)
  }

  /** Placing lamps keeps a board consistent and keeps its lamps. */
  lemma {:induction false} PlaceConsistent(b: Board, row: int, col: int, dirs: seq<(int, int)>)
    requires Rect(b.grid) && Consistent(b.grid)
    ensures Consistent(Place(b, row, col, dirs).1.grid)
    ensures forall i, j :: In(b.grid, i, j) && IsLamp(b.grid[i][j]) ==> IsLamp(Place(b, row, col, dirs).1.grid[i][j])
    decreases |dirs|
  {
    if |dirs| > 0 {
      var first := InsertLamp(b, row + dirs[0].0, col + dirs[0].1);
      InsertConsistent(b, row + dirs[0].0, col + dirs[0].1);
      PlaceConsistent(first.1, row, col, dirs[1..]);
      LampsCarry(b.grid, first.1.grid, Place(first.1, row, col, dirs[1..]).1.grid);
    }
  }

  /** A lamp kept from g to h and from h to k is kept from g to k. */
  lemma LampsCarry(g: Grid, h: Grid, k: Grid)
    requires SameShape(g, h) && SameShape(h, k)
    requires forall i, j :: In(g, i, j) && IsLamp(g[i][j]) ==> IsLamp(h[i][j])
    requires forall i, j :: In(h, i, j) && IsLamp(h[i][j]) ==> IsLamp(k[i][j])
    ensures forall i, j :: In(g, i, j) && IsLamp(g[i][j]) ==> IsLamp(k[i][j])
  {
  }

  /** Blocking changes only EMPTY squares, so no lamp count and no barrier
      verdict changes, and a consistent board stays consistent. */
  lemma BlockKeeps(g: Grid, row: int, col: int, dirs: seq<(int, int)>, r: int, c: int)
    requires Rect(g)
    ensures IsValidBarrier(BlockDirs(g, row, col, dirs), r, c) == IsValidBarrier(g, r, c)
    ensures Consistent(g) ==> Consistent(BlockDirs(g, row, col, dirs))
  {
    var h := BlockDirs(g, row, col, dirs);
    LampsAround(g, r, c);
    LampsAround(h, r, c);
    assert forall i, j :: In(g, i, j) ==> (IsLamp(h[i][j]) <==> IsLamp(g[i][j]));
    assert LampAt(h, r - 1, c) == LampAt(g, r - 1, c) && LampAt(h, r + 1, c) == LampAt(g, r + 1, c);
    assert LampAt(h, r, c - 1) == LampAt(g, r, c - 1) && LampAt(h, r, c + 1) == LampAt(g, r, c + 1);
    if Consistent(g) {
      forall a, b, i, j | In(h, a, b) && IsLamp(h[a][b]) && In(h, i, j) && Sees(h, a, b, i, j)
        ensures h[i][j] == Open(Lit)
      {
        ClearSame(g, h, a, b, i, j);
      }
    }
  }

  /** One row of a `possib` table: the sides that get lamps and the other
      sides, to be blocked, in the order the source visits them. */
  datatype Choice = Choice(lamps: seq<nat>, block: seq<nat>)

  predicate ChoiceOk(ch: Choice)
  {
    (forall k :: 0 <= k < |ch.lamps| ==> ch.lamps[k] < 4) && (forall k :: 0 <= k < |ch.block| ==> ch.block[k] < 4)
  }

  /** One choice: copy the board and insert its lamps; keep the copy, with
      its other sides blocked, when a lamp went in and the barrier at
      (row, col) is satisfied. */
  function Candidate(b: Board, row: int, col: int, ch: Choice): (r: seq<Board>)
    requires Rect(b.grid) && ChoiceOk(ch)
    ensures |r| <= 1
    ensures forall k :: 0 <= k < |r| ==>
              && Rect(r[k].grid) && SameShape(b.grid, r[k].grid)
              && r[k].lamps > b.lamps && IsValidBarrier(r[k].grid, row, col)
  {
    var p := Place(b, row, col, Sides(ch.lamps));
    if p.0 && IsValidBarrier(p.1.grid, row, col) then
      var h := BlockDirs(p.1.grid, row, col, Sides(ch.block));
      BlockKeeps(p.1.grid, row, col, Sides(ch.block), row, col);
      ShapeTrans(b.grid, p.1.grid, h);
      [Board(h, p.1.lamps)]
    else []
  }

  lemma ShapeTrans(g: Grid, h: Grid, k: Grid)
    requires SameShape(g, h) && SameShape(h, k)
    ensures SameShape(g, k)
  {
  }

  /** Board n is consistent, shaped as b, and keeps every lamp of b. */
  ghost predicate KeepsLamps(b: Board, n: Board)
  {
    && Rect(n.grid) && SameShape(b.grid, n.grid) && Consistent(n.grid)
    && forall i, j :: In(b.grid, i, j) && IsLamp(b.grid[i][j]) ==> IsLamp(n.grid[i][j])
  }

  /** The candidates of a consistent board are consistent and keep its
      lamps. */
  lemma CandidateConsistent(b: Board, row: int, col: int, ch: Choice)
    requires Rect(b.grid) && Consistent(b.grid) && ChoiceOk(ch)
    ensures forall k :: 0 <= k < |Candidate(b, row, col, ch)| ==> KeepsLamps(b, Candidate(b, row, col, ch)[k])
  {
    var p := Place(b, row, col, Sides(ch.lamps));
    PlaceConsistent(b, row, col, Sides(ch.lamps));
    BlockKeeps(p.1.grid, row, col, Sides(ch.block), row, col);
  }

  /** The candidates of every choice, in table order. */
  function Generate(b: Board, row: int, col: int, choices: seq<Choice>): (r: seq<Board>)
    requires Rect(b.grid) && forall k :: 0 <= k < |choices| ==> ChoiceOk(choices[k])
    ensures |r| <= |choices|
    ensures forall k :: 0 <= k < |r| ==>
              && Rect(r[k].grid) && SameShape(b.grid, r[k].grid)
              && r[k].lamps > b.lamps && IsValidBarrier(r[k].grid, row, col)
    decreases |choices|
  {
    if |choices| == 0 then []
    else
      var first := Candidate(b, row, col, choices[0]);
      var rest := Generate(b, row, col, choices[1..]);
      GeneratedConcat(b, row, col, first, rest);
      first + rest
  }

  /** Boards that each extend b with a lamp and a valid barrier at (row,
      col) still do so once two lists of them are joined. */
  ghost predicate Extends(b: Board, row: int, col: int, s: seq<Board>)
  {
    forall k :: 0 <= k < |s| ==>
      && Rect(s[k].grid) && SameShape(b.grid, s[k].grid)
      && s[k].lamps > b.lamps && IsValidBarrier(s[k].grid, row, col)
  }

  lemma GeneratedConcat(b: Board, row: int, col: int, first: seq<Board>, rest: seq<Board>)
    requires Extends(b, row, col, first) && Extends(b, row, col, rest)
    ensures Extends(b, row, col, first + rest)
  {
    assert forall k :: 0 <= k < |first + rest| ==> (first + rest)[k] == if k < |first| then first[k] else rest[k - |first|];
  }

  /** Around a numbered barrier, every generated board has exactly that
      many lamps. */
  lemma GenerateCount(b: Board, row: int, col: int, choices: seq<Choice>, num: int)
    requires Rect(b.grid) && forall k :: 0 <= k < |choices| ==> ChoiceOk(choices[k])
    requires In(b.grid, row, col) && b.grid[row][col] == Barrier(num) && num != AnyNumber
    ensures forall k :: 0 <= k < |Generate(b, row, col, choices)| ==>
              LampsNear(Generate(b, row, col, choices)[k].grid, row, col, Directions()) == num
  {
    var r := Generate(b, row, col, choices);
    forall k | 0 <= k < |r|
      ensures LampsNear(r[k].grid, row, col, Directions()) == num
    {
      assert r[k].grid[row][col] == Barrier(num);
    }
  }

  lemma KeepsJoin(b: Board, first: seq<Board>, rest: seq<Board>)
    requires forall k :: 0 <= k < |first| ==> KeepsLamps(b, first[k])
    requires forall k :: 0 <= k < |rest| ==> KeepsLamps(b, rest[k])
    ensures forall k :: 0 <= k < |first + rest| ==> KeepsLamps(b, (first + rest)[k])
  {
    forall k | 0 <= k < |first + rest|
      ensures KeepsLamps(b, (first + rest)[k])
    {
      if k >= |first| {
        assert (first + rest)[k] == rest[k - |first|];
      }
    }
  }

  /** Generated boards of a consistent board are consistent and keep its
      lamps. */
  lemma {:induction false} GenerateConsistent(b: Board, row: int, col: int, choices: seq<Choice>)
    requires Rect(b.grid) && Consistent(b.grid) && forall k :: 0 <= k < |choices| ==> ChoiceOk(choices[k])
    ensures forall k :: 0 <= k < |Generate(b, row, col, choices)| ==> KeepsLamps(b, Generate(b, row, col, choices)[k])
    decreases |choices|
  {
    if |choices| > 0 {
      var first := Candidate(b, row, col, choices[0]);
      var rest := Generate(b, row, col, choices[1..]);
      CandidateConsistent(b, row, col, choices[0]);
      GenerateConsistent(b, row, col, choices[1..]);
      assert Generate(b, row, col, choices) == first + rest;
      KeepsJoin(b, first, rest);
    }
  }

  /** A lamp on one side, the other sides blocked starting after it. */
  function OneChoices(): (t: seq<Choice>)
    ensures |t| == 4 && forall k :: 0 <= k < |t| ==> ChoiceOk(t[k])
  {
    [Choice([0], [1, 2, 3]), Choice([1], [2, 3, 0]), Choice([2], [3, 0, 1]), Choice([3], [0, 1, 2])]
  }

  /** `lightUpBarrierOne`: nothing unless (row, col) is a ONE
      barrier; otherwise at most 4 boards, each with more lamps, the
      same barriers, and exactly 1 lamp around the barrier. */
  function LightUpBarrierOne(b: Board, row: int, col: int): (r: seq<Board>)
    requires Rect(b.grid) && In(b.grid, row, col)
    ensures b.grid[row][col] != Barrier(1) ==> r == []
    ensures |r| <= 4
    ensures forall k :: 0 <= k < |r| ==>
              && Rect(r[k].grid) && SameShape(b.grid, r[k].grid) && r[k].lamps > b.lamps
              && LampsNear(r[k].grid, row, col, Directions()) == 1
  {
    if !b.grid[row][col].Barrier? || b.grid[row][col].number != 1 then []
    else
      var r := Generate(b, row, col, OneChoices());
      GenerateCount(b, row, col, OneChoices(), 1);
      r
  }

  /** Lamps on two sides, the `possib` pairs, the other two blocked. */
  function TwoChoices(): (t: seq<Choice>)
    ensures |t| == 6 && forall k :: 0 <= k < |t| ==> ChoiceOk(t[k])
  {
    [Choice([0, 1], [2, 3]), Choice([0, 2], [1, 3]), Choice([0, 3], [1, 2]),
     Choice([1, 2], [0, 3]), Choice([1, 3], [0, 2]), Choice([2, 3], [0, 1])]
  }

  /** `lightUpBarrierTwo`: nothing unless (row, col) is a TWO
      barrier; otherwise at most 6 boards, each with more lamps, the
      same barriers, and exactly 2 lamps around the barrier. */
  function LightUpBarrierTwo(b: Board, row: int, col: int): (r: seq<Board>)
    requires Rect(b.grid) && In(b.grid, row, col)
    ensures b.grid[row][col] != Barrier(2) ==> r == []
    ensures |r| <= 6
    ensures forall k :: 0 <= k < |r| ==>
              && Rect(r[k].grid) && SameShape(b.grid, r[k].grid) && r[k].lamps > b.lamps
              && LampsNear(r[k].grid, row, col, Directions()) == 2
  {
    if !b.grid[row][col].Barrier? || b.grid[row][col].number != 2 then []
    else
      var r := Generate(b, row, col, TwoChoices());
      GenerateCount(b, row, col, TwoChoices(), 2);
      r
  }

  /** Lamps on three sides, the `possib` triples in their order, the fourth blocked. */
  function ThreeChoices(): (t: seq<Choice>)
    ensures |t| == 4 && forall k :: 0 <= k < |t| ==> ChoiceOk(t[k])
  {
    [Choice([0, 1, 2], [3]), Choice([0, 3, 2], [1]), Choice([3, 0, 1], [2]), Choice([3, 2, 1], [0])]
  }

  /** `lightUpBarrierThree`: nothing unless (row, col) is a THREE
      barrier; otherwise at most 4 boards, each with more lamps, the
      same barriers, and exactly 3 lamps around the barrier. */
  function LightUpBarrierThree(b: Board, row: int, col: int): (r: seq<Board>)
    requires Rect(b.grid) && In(b.grid, row, col)
    ensures b.grid[row][col] != Barrier(3) ==> r == []
    ensures |r| <= 4
    ensures forall k :: 0 <= k < |r| ==>
              && Rect(r[k].grid) && SameShape(b.grid, r[k].grid) && r[k].lamps > b.lamps
              && LampsNear(r[k].grid, row, col, Directions()) == 3
  {
    if !b.grid[row][col].Barrier? || b.grid[row][col].number != 3 then []
    else
      var r := Generate(b, row, col, ThreeChoices());
      GenerateCount(b, row, col, ThreeChoices(), 3);
      r
  }

  /** Lamps on all four sides, nothing to block. */
  function FourChoices(): (t: seq<Choice>)
    ensures |t| == 1 && forall k :: 0 <= k < |t| ==> ChoiceOk(t[k])
  {
    [Choice([0, 1, 2, 3], [])]
  }

  /** `lightUpBarrierFour`: nothing unless (row, col) is a FOUR
      barrier; otherwise at most 1 boards, each with more lamps, the
      same barriers, and exactly 4 lamps around the barrier. */
  function LightUpBarrierFour(b: Board, row: int, col: int): (r: seq<Board>)
    requires Rect(b.grid) && In(b.grid, row, col)
    ensures b.grid[row][col] != Barrier(4) ==> r == []
    ensures |r| <= 1
    ensures forall k :: 0 <= k < |r| ==>
              && Rect(r[k].grid) && SameShape(b.grid, r[k].grid) && r[k].lamps > b.lamps
              && LampsNear(r[k].grid, row, col, Directions()) == 4
  {
    if !b.grid[row][col].Barrier? || b.grid[row][col].number != 4 then []
    else
      var r := Generate(b, row, col, FourChoices());
      GenerateCount(b, row, col, FourChoices(), 4);
      r
  }
}
