/** The recursive depth-first solver (mazeSolver) and its neighbour query
    (checkChar). The search is specified on grid values by the ghost functions
    Solve (one call), Around (its four guarded calls), Step and Enter (one
    guarded call) and Settle (the final Dead marking); the method MazeSolver
    runs it in place on the array and is proved to leave exactly what Solve
    describes. */
module Solver {
  import opened Maze

  function Abs(n: int): nat {
    if n < 0 then -n else n
  }

  /** (i, j) is one of the four orthogonal neighbours of (x, y). */
  predicate Adjacent(x: int, y: int, i: int, j: int) {
    Abs(i - x) + Abs(j - y) == 1
  }

  /** Some orthogonal neighbour of (x, y) holds c, in the order the program
      reads them: below, left, above, right. */
  ghost predicate HasNeighbour(g: Grid, x: int, y: int, c: Cell)
    requires Rectangular(g) && Interior(g, x, y)
  {
    g[x + 1][y] == c || g[x][y - 1] == c || g[x - 1][y] == c || g[x][y + 1] == c
  }

  /** The four reads cover exactly the cells adjacent to (x, y). */
  lemma HasNeighbourAdjacent(g: Grid, x: int, y: int, c: Cell)
    requires Rectangular(g) && Interior(g, x, y)
    ensures HasNeighbour(g, x, y, c) <==>
            exists i, j :: 0 <= i < |g| && 0 <= j < |g[i]| && Adjacent(x, y, i, j) && g[i][j] == c
  {
    if exists i, j :: 0 <= i < |g| && 0 <= j < |g[i]| && Adjacent(x, y, i, j) && g[i][j] == c {
      var i, j :| 0 <= i < |g| && 0 <= j < |g[i]| && Adjacent(x, y, i, j) && g[i][j] == c;
      assert (i, j) in {(x + 1, y), (x, y - 1), (x - 1, y), (x, y + 1)};
    }
    if g[x + 1][y] == c {
      assert Adjacent(x, y, x + 1, y);
    } else if g[x][y - 1] == c {
      assert Adjacent(x, y, x, y - 1);
    } else if g[x - 1][y] == c {
      assert Adjacent(x, y, x - 1, y);
    } else if g[x][y + 1] == c {
      assert Adjacent(x, y, x, y + 1);
    }
  }

  /** checkChar: does one of the four orthogonal neighbours of (x, y) hold
      checker? It reads the neighbours below, left, above and right, in that
      order; the reads are unchecked, so (x, y) must be off the outer ring. */
  function CheckChar(maze: array2<Cell>, x: int, y: int, checker: Cell): (found: bool)
    reads maze
    requires 1 <= x < maze.Length0 - 1 && 1 <= y < maze.Length1 - 1
    ensures found <==> exists i, j :: 0 <= i < maze.Length0 && 0 <= j < maze.Length1 &&
                                     Adjacent(x, y, i, j) && maze[i, j] == checker
  {
    if maze[x + 1, y] == checker then true
    else if maze[x, y - 1] == checker then true
    else if maze[x - 1, y] == checker then true
    else if maze[x, y + 1] == checker then true
    else false
  }

  lemma CheckCharMirrors(maze: array2<Cell>, g: Grid, x: int, y: int, c: Cell)
    requires Mirrors(maze, g) && 1 <= x < maze.Length0 - 1 && 1 <= y < maze.Length1 - 1
    ensures Rectangular(g) && Interior(g, x, y)
    ensures CheckChar(maze, x, y, c) <==> HasNeighbour(g, x, y, c)
  {
  }

  /** Every Empty cell of g lies off the outer ring, so every cell the search
      enters has its four neighbours on the grid. */
  ghost predicate Fenced(g: Grid) {
    Rectangular(g) && forall i, j :: InBounds(g, i, j) && g[i][j] == Empty ==> Interior(g, i, j)
  }

  lemma NoNewEmptyFenced(g: Grid, h: Grid)
    requires Fenced(g) && SameShape(g, h)
    requires forall i, j :: 0 <= i < |g| && 0 <= j < |g[i]| && h[i][j] == Empty ==> g[i][j] == Empty
    ensures Fenced(h) && Width(h) == Width(g)
  {
  }

  /** The cells a call on (x, y) may still enter: the Empty cells, and (x, y)
      itself if it is not Empty. */
  ghost function Open(g: Grid, x: int, y: int): nat
    requires 0 <= x < |g| && 0 <= y < |g[x]|
  {
    EmptyCount(g) + if g[x][y] == Empty then 0 else 1
  }

  /** What one search call hands back: the grid, the shared counter and the
      shared solved flag. */
  datatype Outcome = Outcome(grid: Grid, counter: int, solved: bool)

  /** One call mazeSolver(maze, x, y, counter, solved) on grid g. The call
      counts itself and marks (x, y) as Path. If a neighbour is the destination
      it sets the flag and stops. Otherwise it tries the neighbours below,
      left, above and right (Step), and then settles (x, y) (Settle). */
  ghost function Solve(g: Grid, x: int, y: int, counter: int, solved: bool): (o: Outcome)
    requires Fenced(g) && Interior(g, x, y)
    ensures Fenced(o.grid) && |o.grid| == |g| && Width(o.grid) == Width(g)
    ensures EmptyCount(o.grid) < Open(g, x, y)
    ensures solved ==> o.solved
    decreases Open(g, x, y), 0
  {
    var g1 := Update(g, x, y, Path);
    EmptyCountUpdate(g, x, y, Path);
    NoNewEmptyFenced(g, g1);
    if HasNeighbour(g1, x, y, Dest) then
      Outcome(g1, counter + 1, true)
    else
      Settle(Around(Outcome(g1, counter + 1, solved), x, y), x, y)
  }

  /** The four guarded calls in the order the program makes them. */
  ghost function Around(o: Outcome, x: int, y: int): (r: Outcome)
    requires Fenced(o.grid) && Interior(o.grid, x, y)
    ensures Fenced(r.grid) && |r.grid| == |o.grid| && Width(r.grid) == Width(o.grid)
    ensures EmptyCount(r.grid) <= EmptyCount(o.grid)
    ensures o.solved ==> r.solved
    decreases EmptyCount(o.grid), 3
  {
    Step(Step(Step(Step(o, x + 1, y), x, y - 1), x - 1, y), x, y + 1)
  }

  /** The last statement of mazeSolver: (x, y) becomes Dead when no
      neighbour is Empty any more and the flag is still false. */
  ghost function Settle(o: Outcome, x: int, y: int): (r: Outcome)
    requires Fenced(o.grid) && Interior(o.grid, x, y)
    ensures Fenced(r.grid) && |r.grid| == |o.grid| && Width(r.grid) == Width(o.grid)
    ensures EmptyCount(r.grid) <= EmptyCount(o.grid)
    ensures r.counter == o.counter && r.solved == o.solved
  {
    if !HasNeighbour(o.grid, x, y, Empty) && !o.solved then
      var g5 := Update(o.grid, x, y, Dead);
      EmptyCountUpdate(o.grid, x, y, Dead);
      NoNewEmptyFenced(o.grid, g5);
      Outcome(g5, o.counter, o.solved)
    else
      o
  }

  /** One of the four guarded calls, threading the shared state o (grid,
      counter and flag) from the call before it into the next. */
  ghost function Step(o: Outcome, nx: int, ny: int): (r: Outcome)
    requires Fenced(o.grid) && InBounds(o.grid, nx, ny)
    ensures Fenced(r.grid) && |r.grid| == |o.grid| && Width(r.grid) == Width(o.grid)
    ensures EmptyCount(r.grid) <= EmptyCount(o.grid)
    ensures o.solved ==> r.solved
    decreases EmptyCount(o.grid), 2
  {
    Enter(o.grid, nx, ny, o.counter, o.solved)
  }

  /** The guard of each recursive call: enter (nx, ny) only if it is Empty now
      and the flag is still false; otherwise nothing happens. */
  ghost function Enter(g: Grid, nx: int, ny: int, counter: int, solved: bool): (o: Outcome)
    requires Fenced(g) && InBounds(g, nx, ny)
    ensures Fenced(o.grid) && |o.grid| == |g| && Width(o.grid) == Width(g)
    ensures EmptyCount(o.grid) <= EmptyCount(g)
    ensures solved ==> o.solved
    decreases EmptyCount(g), 1
  {
    if g[nx][ny] == Empty && !solved then Solve(g, nx, ny, counter, solved)
    else Outcome(g, counter, solved)
  }

  /** mazeSolver, run in place on the array. The program passes counter and
      mazeSolved by reference; here each comes in as a value and its final
      value goes out (counter', mazeSolved'). The ghost parameter g names the
      grid on entry. When the destination is next to (x, y) on entry, the call
      only marks (x, y) as Path, counts itself and reports success. */
  method MazeSolver(maze: array2<Cell>, x: int, y: int, counter: int, mazeSolved: bool, ghost g: Grid)
    returns (found: bool, counter': int, mazeSolved': bool)
    requires Mirrors(maze, g) && Fenced(g) && Interior(g, x, y)
    modifies maze
    ensures Mirrors(maze, Solve(g, x, y, counter, mazeSolved).grid)
    ensures counter' == Solve(g, x, y, counter, mazeSolved).counter
    ensures mazeSolved' == Solve(g, x, y, counter, mazeSolved).solved
    ensures found == mazeSolved'
    ensures old(CheckChar(maze, x, y, Dest)) ==>
              found && counter' == counter + 1 &&
              forall i, j :: 0 <= i < maze.Length0 && 0 <= j < maze.Length1 ==>
                maze[i, j] == if i == x && j == y then Path else old(maze[i, j])
    decreases Open(g, x, y), 0
  {
    ghost var destNext := CheckChar(maze, x, y, Dest);
    counter' := counter + 1;
    maze[x, y] := Path;
    ghost var g1 := Update(g, x, y, Path);
    EmptyCountUpdate(g, x, y, Path);
    NoNewEmptyFenced(g, g1);
    assert Mirrors(maze, g1);

    CheckCharMirrors(maze, g1, x, y, Dest);
    assert CheckChar(maze, x, y, Dest) == destNext;
    if CheckChar(maze, x, y, Dest) {
      mazeSolved' := true;
      found := mazeSolved';
      return;
    }
    mazeSolved' := mazeSolved;

    ghost var o4;
    counter', mazeSolved', o4 := Explore(maze, x, y, counter', mazeSolved', g1);

    CheckCharMirrors(maze, o4.grid, x, y, Empty);
    if !CheckChar(maze, x, y, Empty) && !mazeSolved' {
      maze[x, y] := Dead;
      assert Mirrors(maze, Update(o4.grid, x, y, Dead));
    }
    found := mazeSolved';
  }

  /** The four guarded recursive calls of mazeSolver, in program order. */
  method Explore(maze: array2<Cell>, x: int, y: int, counter: int, mazeSolved: bool, ghost g: Grid)
    returns (counter': int, mazeSolved': bool, ghost o: Outcome)
    requires Mirrors(maze, g) && Fenced(g) && Interior(g, x, y)
    modifies maze
    ensures o == Around(Outcome(g, counter, mazeSolved), x, y)
    ensures Mirrors(maze, o.grid) && counter' == o.counter && mazeSolved' == o.solved
    decreases EmptyCount(g), 4
  {
    ghost var o0 := Outcome(g, counter, mazeSolved);
    ghost var o2;
    counter', mazeSolved', o2 := DescendTwice(maze, x + 1, y, x, y - 1, counter, mazeSolved, o0);
    counter', mazeSolved', o := DescendTwice(maze, x - 1, y, x, y + 1, counter', mazeSolved', o2);
  }

  /** Two of the guarded recursive calls, one after the other: the first at
      (px, py), the second at (qx, qy) on whatever the first left behind. */
  method DescendTwice(maze: array2<Cell>, px: int, py: int, qx: int, qy: int, counter: int, mazeSolved: bool, ghost o: Outcome)
    returns (counter': int, mazeSolved': bool, ghost r: Outcome)
    requires Mirrors(maze, o.grid) && Fenced(o.grid) && InBounds(o.grid, px, py) && InBounds(o.grid, qx, qy)
    requires counter == o.counter && mazeSolved == o.solved
    modifies maze
    ensures r == Step(Step(o, px, py), qx, qy)
    ensures Mirrors(maze, r.grid) && counter' == r.counter && mazeSolved' == r.solved
    decreases EmptyCount(o.grid), 3
  {
    ghost var o1;
    counter', mazeSolved', o1 := Descend(maze, px, py, counter, mazeSolved, o);
    counter', mazeSolved', r := Descend(maze, qx, qy, counter', mazeSolved', o1);
  }

  /** One of the four guarded recursive calls of mazeSolver: descend into
      (nx, ny) only if that cell is Empty now and mazeSolved is still false.
      The program ignores the value such a call returns; what it keeps is the
      shared counter and flag. */
  method Descend(maze: array2<Cell>, nx: int, ny: int, counter: int, mazeSolved: bool, ghost o: Outcome)
    returns (counter': int, mazeSolved': bool, ghost r: Outcome)
    requires Mirrors(maze, o.grid) && Fenced(o.grid) && InBounds(o.grid, nx, ny)
    requires counter == o.counter && mazeSolved == o.solved
    modifies maze
    ensures r == Step(o, nx, ny)
    ensures Mirrors(maze, r.grid) && counter' == r.counter && mazeSolved' == r.solved
    ensures old(maze[nx, ny]) != Empty || mazeSolved ==>
              unchanged(maze) && counter' == counter && mazeSolved' == mazeSolved
    decreases EmptyCount(o.grid), 2
  {
    r := Step(o, nx, ny);
    counter', mazeSolved' := counter, mazeSolved;
    if maze[nx, ny] == Empty && !mazeSolved {
      var found;
      found, counter', mazeSolved' := MazeSolver(maze, nx, ny, counter, mazeSolved, o.grid);
    }
  }
}
