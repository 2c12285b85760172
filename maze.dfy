/** The grid model of the maze solver: the cell vocabulary, the fixed grid size,
    a value view of the grid, and the two whole-grid passes run before and after
    a search (initMaze and finalMaze). */
module Maze {

  /** One cell of the grid. The program keeps the maze as an array of display
      characters and tells cells apart by comparing characters, so a cell is a
      char and the six cell kinds are the program's character constants. */
  type Cell = char

  /** The wall character is the extended-ASCII block graphic, code 219. */
  const Wall: Cell := 219 as char
  const Start: Cell := 'S'
  const Dest: Cell := 'D'
  const Empty: Cell := ' '
  const Path: Cell := '*'
  const Dead: Cell := 'X'

  /** The grid is declared as MaxRows rows of MaxCols characters. */
  const MaxRows := 22
  const MaxCols := 81

  /** A coordinate (row, column); the row comes first, as X does in the program. */
  type Pos = (int, int)

  /** The contents of a grid as a value, row by row. */
  type Grid = seq<seq<Cell>>

  function Width(g: Grid): nat {
    if |g| == 0 then 0 else |g[0]|
  }

  ghost predicate Rectangular(g: Grid) {
    forall i :: 0 <= i < |g| ==> |g[i]| == Width(g)
  }

  predicate InBounds(g: Grid, i: int, j: int) {
    0 <= i < |g| && 0 <= j < Width(g)
  }

  /** Off the outer ring: all four orthogonal neighbours are on the grid. */
  predicate Interior(g: Grid, i: int, j: int) {
    1 <= i < |g| - 1 && 1 <= j < Width(g) - 1
  }

  ghost predicate SameShape(g: Grid, h: Grid) {
    |h| == |g| && forall i :: 0 <= i < |g| ==> |h[i]| == |g[i]|
  }

  /** The array holds exactly the grid value g. */
  ghost predicate Mirrors(maze: array2<Cell>, g: Grid)
    reads maze
  {
    |g| == maze.Length0 &&
    (forall i :: 0 <= i < |g| ==> |g[i]| == maze.Length1) &&
    forall i, j :: 0 <= i < |g| && 0 <= j < |g[i]| ==> g[i][j] == maze[i, j]
  }

  /** The grid with cell (i, j) set to c. */
  function Update(g: Grid, i: int, j: int, c: Cell): Grid
    requires 0 <= i < |g| && 0 <= j < |g[i]|
  {
    g[i := g[i][j := c]]
  }

  /** The number of Empty cells in a row. */
  function EmptyInRow(r: seq<Cell>): nat {
    if r == [] then 0 else (if r[0] == Empty then 1 else 0) + EmptyInRow(r[1..])
  }

  /** The number of Empty cells in a grid. */
  function EmptyCount(g: Grid): nat {
    if g == [] then 0 else EmptyInRow(g[0]) + EmptyCount(g[1..])
  }

  lemma {:induction false} EmptyInRowUpdate(r: seq<Cell>, j: int, c: Cell)
    requires 0 <= j < |r|
    ensures EmptyInRow(r[j := c]) ==
            EmptyInRow(r) - (if r[j] == Empty then 1 else 0) + (if c == Empty then 1 else 0)
  {
    if j == 0 {
      assert r[j := c][1..] == r[1..];
    } else {
      assert r[j := c][1..] == r[1..][j - 1 := c];
      EmptyInRowUpdate(r[1..], j - 1, c);
    }
  }

  /** Writing c into cell (i, j) changes the count of Empty cells only by
      what the cell held before and what it holds after. */
  lemma {:induction false} EmptyCountUpdate(g: Grid, i: int, j: int, c: Cell)
    requires 0 <= i < |g| && 0 <= j < |g[i]|
    ensures EmptyCount(Update(g, i, j, c)) ==
            EmptyCount(g) - (if g[i][j] == Empty then 1 else 0) + (if c == Empty then 1 else 0)
  {
    var h := Update(g, i, j, c);
    if i == 0 {
      assert h[1..] == g[1..];
      EmptyInRowUpdate(g[0], j, c);
    } else {
      assert h[1..] == Update(g[1..], i - 1, j, c);
      EmptyCountUpdate(g[1..], i - 1, j, c);
    }
  }

  /** Two grids of the same shape that agree on every cell are equal. */
  lemma GridsEqual(g: Grid, h: Grid)
    requires SameShape(g, h)
    requires forall i, j :: 0 <= i < |g| && 0 <= j < |g[i]| ==> h[i][j] == g[i][j]
    ensures g == h
  {
    forall i | 0 <= i < |g| ensures h[i] == g[i] {
      assert forall j :: 0 <= j < |g[i]| ==> h[i][j] == g[i][j];
    }
  }

  /** What finalMaze leaves in a cell other than the start cell. */
  function Cleared(c: Cell): Cell {
    if c == Dead then Empty else c
  }

  /** The grid as finalMaze leaves it: every Dead cell back to Empty, and the
      Start marker back at (sx, sy). */
  ghost function Restored(g: Grid, sx: int, sy: int): (r: Grid)
    ensures SameShape(g, r)
    ensures 0 <= sx < |g| && 0 <= sy < |g[sx]| ==> r[sx][sy] == Start
    ensures forall i, j :: 0 <= i < |g| && 0 <= j < |g[i]| ==> r[i][j] != Dead
    ensures forall i, j :: 0 <= i < |g| && 0 <= j < |g[i]| && (i != sx || j != sy) && g[i][j] != Dead ==>
              r[i][j] == g[i][j]
    ensures forall i, j :: 0 <= i < |g| && 0 <= j < |g[i]| && (i != sx || j != sy) && g[i][j] == Dead ==>
              r[i][j] == Empty
  {
    seq(|g|, i requires 0 <= i < |g| =>
      seq(|g[i]|, j requires 0 <= j < |g[i]| =>
        if i == sx && j == sy then Start else Cleared(g[i][j])))
  }

  /** initMaze: every cell of the MaxRows x MaxCols grid becomes Empty. */
  method InitMaze(maze: array2<Cell>)
    requires maze.Length0 == MaxRows && maze.Length1 == MaxCols
    modifies maze
    ensures forall i, j :: 0 <= i < MaxRows && 0 <= j < MaxCols ==> maze[i, j] == Empty
  {
    for x := 0 to MaxRows
      invariant forall i, j :: 0 <= i < x && 0 <= j < MaxCols ==> maze[i, j] == Empty
    {
      for y := 0 to MaxCols
        invariant forall i, j :: 0 <= i < x && 0 <= j < MaxCols ==> maze[i, j] == Empty
        invariant forall j :: 0 <= j < y ==> maze[x, j] == Empty
      {
        maze[x, y] := Empty;
      }
    }
  }

  /** finalMaze: one pass turns every Dead cell into Empty, then the start cell
      gets its Start marker back. The ghost parameter g names the grid on entry. */
  method FinalMaze(maze: array2<Cell>, startX: int, startY: int, ghost g: Grid)
    requires maze.Length0 == MaxRows && maze.Length1 == MaxCols
    requires 0 <= startX < MaxRows && 0 <= startY < MaxCols
    requires Mirrors(maze, g)
    modifies maze
    ensures Mirrors(maze, Restored(g, startX, startY))
  {
    for x := 0 to MaxRows
      invariant forall i, j :: 0 <= i < x && 0 <= j < MaxCols ==> maze[i, j] == Cleared(g[i][j])
      invariant forall i, j :: x <= i < MaxRows && 0 <= j < MaxCols ==> maze[i, j] == g[i][j]
    {
      for y := 0 to MaxCols
        invariant forall i, j :: 0 <= i < x && 0 <= j < MaxCols ==> maze[i, j] == Cleared(g[i][j])
        invariant forall j :: 0 <= j < y ==> maze[x, j] == Cleared(g[x][j])
        invariant forall j :: y <= j < MaxCols ==> maze[x, j] == g[x][j]
        invariant forall i, j :: x < i < MaxRows && 0 <= j < MaxCols ==> maze[i, j] == g[i][j]
      {
        if maze[x, y] == Dead {
          maze[x, y] := Empty;
        }
      }
    }
    maze[startX, startY] := Start;
  }
}
