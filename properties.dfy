/** What the search promises, proved about the specification functions of
    module Solver: the frame, the counter, the dead marking, the success
    route, the flag short-circuits, and what finalMaze leaves afterwards. */
module SolverProperties {
  import opened Maze
  import opened Solver

  /** A cell the search has entered. */
  predicate Marked(c: Cell) {
    c == Path || c == Dead
  }

  /** h is g after some guarded calls: the shape is kept, and every cell that
      changed was Empty and now holds Path or Dead. */
  ghost predicate Explores(g: Grid, h: Grid) {
    SameShape(g, h) &&
    forall i, j {:trigger h[i][j]} :: 0 <= i < |g| && 0 <= j < |g[i]| && h[i][j] != g[i][j] ==>
      g[i][j] == Empty && Marked(h[i][j])
  }

  /** h is g after a call on (x, y): as Explores, except that (x, y) itself,
      whatever it held, now holds Path or Dead. */
  ghost predicate ExploresFrom(g: Grid, h: Grid, x: int, y: int) {
    SameShape(g, h) && 0 <= x < |g| && 0 <= y < |g[x]| && Marked(h[x][y]) &&
    forall i, j {:trigger h[i][j]} :: 0 <= i < |g| && 0 <= j < |g[i]| && (i != x || j != y) && h[i][j] != g[i][j] ==>
      g[i][j] == Empty && Marked(h[i][j])
  }

  lemma ExploresTrans(a: Grid, b: Grid, c: Grid)
    requires Explores(a, b) && Explores(b, c)
    ensures Explores(a, c)
  {
  }

  /** Frame and counter of one call. Every cell it changes other than (x, y)
      was Empty and now holds Path or Dead, and (x, y) ends as Path or Dead.
      The counter grows by the number of cells the call entered: (x, y) and
      every formerly Empty cell, since no cell becomes Empty again. */
  lemma {:induction false} SolveExplores(g: Grid, x: int, y: int, counter: int, solved: bool)
    requires Fenced(g) && Interior(g, x, y)
    ensures ExploresFrom(g, Solve(g, x, y, counter, solved).grid, x, y)
    ensures Solve(g, x, y, counter, solved).counter ==
            counter + Open(g, x, y) - EmptyCount(Solve(g, x, y, counter, solved).grid)
    decreases Open(g, x, y), 0
  {
    var g1 := Update(g, x, y, Path);
    EmptyCountUpdate(g, x, y, Path);
    NoNewEmptyFenced(g, g1);
    if !HasNeighbour(g1, x, y, Dest) {
      var o0 := Outcome(g1, counter + 1, solved);
      AroundExplores(o0, x, y);
      SettleExplores(g, counter, Around(o0, x, y), x, y);
    }
  }

  /** The last statement of a call keeps the frame and the count of the call. */
  lemma SettleExplores(g: Grid, counter: int, o: Outcome, x: int, y: int)
    requires Fenced(g) && Fenced(o.grid) && Interior(g, x, y)
    requires Explores(Update(g, x, y, Path), o.grid)
    requires o.counter == counter + Open(g, x, y) - EmptyCount(o.grid)
    ensures ExploresFrom(g, Settle(o, x, y).grid, x, y)
    ensures Settle(o, x, y).counter == counter + Open(g, x, y) - EmptyCount(Settle(o, x, y).grid)
  {
    assert o.grid[x][y] == Update(g, x, y, Path)[x][y];
    EmptyCountUpdate(o.grid, x, y, Dead);
  }

  /** Frame and counter of the four guarded calls, one after the other. */
  lemma {:induction false} AroundExplores(o: Outcome, x: int, y: int)
    requires Fenced(o.grid) && Interior(o.grid, x, y)
    ensures Explores(o.grid, Around(o, x, y).grid)
    ensures Around(o, x, y).counter == o.counter + EmptyCount(o.grid) - EmptyCount(Around(o, x, y).grid)
    decreases EmptyCount(o.grid), 3
  {
    var o1 := Step(o, x + 1, y);
    StepExtends(o.grid, o.counter, o, x + 1, y);
    var o2 := Step(o1, x, y - 1);
    StepExtends(o.grid, o.counter, o1, x, y - 1);
    var o3 := Step(o2, x - 1, y);
    StepExtends(o.grid, o.counter, o2, x - 1, y);
    StepExtends(o.grid, o.counter, o3, x, y + 1);
  }

  /** One more guarded call after a run of them that started on grid base
      with counter n keeps the frame and the count. */
  lemma {:induction false} StepExtends(base: Grid, n: int, o: Outcome, nx: int, ny: int)
    requires Fenced(o.grid) && InBounds(o.grid, nx, ny)
    requires Explores(base, o.grid) && o.counter == n + EmptyCount(base) - EmptyCount(o.grid)
    ensures Explores(base, Step(o, nx, ny).grid)
    ensures Step(o, nx, ny).counter == n + EmptyCount(base) - EmptyCount(Step(o, nx, ny).grid)
    decreases EmptyCount(o.grid), 2
  {
    StepExplores(o, nx, ny);
    ExploresTrans(base, o.grid, Step(o, nx, ny).grid);
  }

  /** Frame and counter of one guarded call: it only turns Empty cells into
      Path or Dead, and the counter grows by the number of cells entered. */
  lemma {:induction false} StepExplores(o: Outcome, nx: int, ny: int)
    requires Fenced(o.grid) && InBounds(o.grid, nx, ny)
    ensures Explores(o.grid, Step(o, nx, ny).grid)
    ensures Step(o, nx, ny).counter == o.counter + EmptyCount(o.grid) - EmptyCount(Step(o, nx, ny).grid)
    decreases EmptyCount(o.grid), 1
  {
    if o.grid[nx][ny] == Empty && !o.solved {
      SolveExplores(o.grid, nx, ny, o.counter, o.solved);
    }
  }

  /** h differs from g only in cells that now hold Dead. */
  ghost predicate DeadWhereChanged(g: Grid, h: Grid) {
    SameShape(g, h) &&
    forall i, j {:trigger h[i][j]} :: 0 <= i < |g| && 0 <= j < |g[i]| && h[i][j] != g[i][j] ==> h[i][j] == Dead
  }

  lemma DeadTrans(a: Grid, b: Grid, c: Grid)
    requires DeadWhereChanged(a, b) && DeadWhereChanged(b, c)
    ensures DeadWhereChanged(a, c)
  {
  }

  /** Dead marking. A call that ends with the flag set leaves (x, y) as Path;
      a call that ends with the flag clear leaves (x, y) Dead with no Empty
      neighbour, and every cell it changed is Dead. */
  lemma {:induction false} SolveSettles(g: Grid, x: int, y: int, counter: int, solved: bool)
    requires Fenced(g) && Interior(g, x, y)
    ensures var o := Solve(g, x, y, counter, solved);
            (o.solved ==> o.grid[x][y] == Path) &&
            (!o.solved ==> o.grid[x][y] == Dead && !HasNeighbour(o.grid, x, y, Empty) &&
                           DeadWhereChanged(g, o.grid))
    decreases Open(g, x, y), 0
  {
    var g1 := Update(g, x, y, Path);
    EmptyCountUpdate(g, x, y, Path);
    NoNewEmptyFenced(g, g1);
    if !HasNeighbour(g1, x, y, Dest) {
      var o0 := Outcome(g1, counter + 1, solved);
      var o4 := Around(o0, x, y);
      AroundExplores(o0, x, y);
      AroundFails(o0, x, y);
      SettleFails(g, Around(o0, x, y), x, y);
    }
  }

  /** The last statement of a call, after the four guarded calls: Dead marking
      happens exactly when the flag is still clear. */
  lemma SettleFails(g: Grid, o: Outcome, x: int, y: int)
    requires Fenced(g) && Fenced(o.grid) && Interior(g, x, y)
    requires Explores(Update(g, x, y, Path), o.grid)
    requires !o.solved ==> !HasNeighbour(o.grid, x, y, Empty) &&
                           DeadWhereChanged(Update(g, x, y, Path), o.grid)
    ensures var r := Settle(o, x, y);
            (r.solved ==> r.grid[x][y] == Path) &&
            (!r.solved ==> r.grid[x][y] == Dead && !HasNeighbour(r.grid, x, y, Empty) &&
                           DeadWhereChanged(g, r.grid))
  {
    assert o.grid[x][y] == Update(g, x, y, Path)[x][y];
  }

  /** When the four guarded calls end with the flag clear, every neighbour of
      (x, y) has been entered and settled, and every cell they changed is Dead. */
  lemma {:induction false} AroundFails(o: Outcome, x: int, y: int)
    requires Fenced(o.grid) && Interior(o.grid, x, y)
    ensures var r := Around(o, x, y);
            !r.solved ==> !HasNeighbour(r.grid, x, y, Empty) && DeadWhereChanged(o.grid, r.grid)
    decreases EmptyCount(o.grid), 4
  {
    var o1 := Step(o, x + 1, y);
    var o2 := Step(o1, x, y - 1);
    var o3 := Step(o2, x - 1, y);
    var o4 := Step(o3, x, y + 1);
    StepFails(o, x + 1, y);
    if !o1.solved {
      assert Filled(o1.grid, [(x + 1, y)]);
    }
    var n1 := [(x + 1, y)];
    FailsExtends(o.grid, n1, o1, x, y - 1);
    var n2 := n1 + [(x, y - 1)];
    FailsExtends(o.grid, n2, o2, x - 1, y);
    var n3 := n2 + [(x - 1, y)];
    FailsExtends(o.grid, n3, o3, x, y + 1);
    var n4 := n3 + [(x, y + 1)];
    if !o4.solved {
      assert n4[0] == (x + 1, y) && n4[1] == (x, y - 1) && n4[2] == (x - 1, y) && n4[3] == (x, y + 1);
    }
  }

  /** No cell listed in ns is Empty in h. */
  ghost predicate Filled(h: Grid, ns: seq<Pos>) {
    Rectangular(h) &&
    forall k :: 0 <= k < |ns| ==> InBounds(h, ns[k].0, ns[k].1) && h[ns[k].0][ns[k].1] != Empty
  }

  /** One more guarded call after a run of them that started on grid base and
      left the cells ns non-Empty. */
  lemma {:induction false} FailsExtends(base: Grid, ns: seq<Pos>, o: Outcome, nx: int, ny: int)
    requires Fenced(o.grid) && InBounds(o.grid, nx, ny)
    requires !o.solved ==> DeadWhereChanged(base, o.grid) && Filled(o.grid, ns)
    ensures var r := Step(o, nx, ny);
            !r.solved ==> DeadWhereChanged(base, r.grid) && Filled(r.grid, ns + [(nx, ny)])
    decreases EmptyCount(o.grid), 3
  {
    StepFails(o, nx, ny);
    var r := Step(o, nx, ny);
    if !r.solved {
      DeadTrans(base, o.grid, r.grid);
      var ms := ns + [(nx, ny)];
      forall k | 0 <= k < |ms|
        ensures InBounds(r.grid, ms[k].0, ms[k].1) && r.grid[ms[k].0][ms[k].1] != Empty
      {
        if k < |ns| {
          assert ms[k] == ns[k];
        }
      }
    }
  }

  /** A guarded call that ends with the flag clear leaves its cell non-Empty
      (entered and Dead, or never Empty) and changes cells only to Dead. */
  lemma {:induction false} StepFails(o: Outcome, nx: int, ny: int)
    requires Fenced(o.grid) && InBounds(o.grid, nx, ny)
    ensures var r := Step(o, nx, ny);
            !r.solved ==> r.grid[nx][ny] != Empty && DeadWhereChanged(o.grid, r.grid)
    decreases EmptyCount(o.grid), 2
  {
    if o.grid[nx][ny] == Empty && !o.solved {
      SolveSettles(o.grid, nx, ny, o.counter, o.solved);
    }
  }

  /** A route of Path cells: consecutive cells are adjacent, every cell is off
      the outer ring and holds Path, and the last one has Dest as a neighbour. */
  ghost predicate Route(h: Grid, p: seq<Pos>) {
    Rectangular(h) && |p| > 0 &&
    (forall k :: 0 <= k < |p| ==> Interior(h, p[k].0, p[k].1) && h[p[k].0][p[k].1] == Path) &&
    (forall k :: 0 < k < |p| ==> Adjacent(p[k - 1].0, p[k - 1].1, p[k].0, p[k].1)) &&
    var last := p[|p| - 1];
    Interior(h, last.0, last.1) && HasNeighbour(h, last.0, last.1, Dest)
  }

  lemma PrependRoute(h: Grid, x: int, y: int, q: seq<Pos>)
    requires Route(h, q) && Interior(h, x, y) && h[x][y] == Path
    requires Adjacent(x, y, q[0].0, q[0].1)
    ensures Route(h, [(x, y)] + q)
  {
    var p := [(x, y)] + q;
    assert forall k :: 0 < k < |p| ==> p[k] == q[k - 1];
  }

  /** Soundness of success. A call made with the flag clear that ends with the
      flag set leaves a route of Path cells from (x, y) to a neighbour of Dest:
      the cells of the calls on the successful chain stay Path. */
  lemma {:induction false} SolveRoute(g: Grid, x: int, y: int, counter: int) returns (p: seq<Pos>)
    requires Fenced(g) && Interior(g, x, y) && Solve(g, x, y, counter, false).solved
    ensures Route(Solve(g, x, y, counter, false).grid, p) && p[0] == (x, y)
    decreases Open(g, x, y), 0
  {
    var g1 := Update(g, x, y, Path);
    EmptyCountUpdate(g, x, y, Path);
    NoNewEmptyFenced(g, g1);
    if HasNeighbour(g1, x, y, Dest) {
      p := [(x, y)];
    } else {
      var o0 := Outcome(g1, counter + 1, false);
      p := AroundRoute(o0, x, y);
    }
  }

  /** The four guarded calls, started with the flag clear on a cell that holds
      Path and ending with the flag set, leave a route from that cell. */
  lemma {:induction false} AroundRoute(o: Outcome, x: int, y: int) returns (p: seq<Pos>)
    requires Fenced(o.grid) && Interior(o.grid, x, y) && o.grid[x][y] == Path
    requires !o.solved && Around(o, x, y).solved
    ensures Route(Around(o, x, y).grid, p) && p[0] == (x, y)
    decreases EmptyCount(o.grid), 3
  {
    var p1 := StepRoute(o, x, y, x + 1, y);
    var o1 := Step(o, x + 1, y);
    var p2 := StepRoute(o1, x, y, x, y - 1);
    var o2 := Step(o1, x, y - 1);
    var p3 := StepRoute(o2, x, y, x - 1, y);
    var o3 := Step(o2, x - 1, y);
    var p4 := StepRoute(o3, x, y, x, y + 1);
    p := if o1.solved then p1 else if o2.solved then p2 else if o3.solved then p3 else p4;
  }

  /** One guarded call from the Path cell (x, y) into its neighbour (nx, ny):
      (x, y) stays Path; if the flag was set already nothing happens; and if
      the call sets the flag, there is a route from (x, y). */
  lemma {:induction false} StepRoute(o: Outcome, x: int, y: int, nx: int, ny: int) returns (p: seq<Pos>)
    requires Fenced(o.grid) && Interior(o.grid, x, y) && o.grid[x][y] == Path
    requires Adjacent(x, y, nx, ny)
    ensures Step(o, nx, ny).grid[x][y] == Path
    ensures o.solved ==> Step(o, nx, ny) == o
    ensures !o.solved && Step(o, nx, ny).solved ==> Route(Step(o, nx, ny).grid, p) && p[0] == (x, y)
    decreases EmptyCount(o.grid), 2
  {
    p := [];
    StepExplores(o, nx, ny);
    if o.grid[nx][ny] == Empty && !o.solved {
      var h := Solve(o.grid, nx, ny, o.counter, false);
      if h.solved {
        var q := SolveRoute(o.grid, nx, ny, o.counter);
        PrependRoute(h.grid, x, y, q);
        p := [(x, y)] + q;
      }
    }
  }

  /** The descent rule: a guarded call enters (nx, ny) exactly when that cell
      is Empty at that moment and the flag is clear; otherwise it changes
      nothing, not even the counter. */
  lemma StepEntersOnlyEmpty(o: Outcome, nx: int, ny: int)
    requires Fenced(o.grid) && InBounds(o.grid, nx, ny)
    ensures o.solved || o.grid[nx][ny] != Empty ==> Step(o, nx, ny) == o
    ensures !o.solved && o.grid[nx][ny] == Empty ==>
            Step(o, nx, ny) == Solve(o.grid, nx, ny, o.counter, false)
  {
  }

  /** A call made with the flag already set marks (x, y) as Path, counts
      itself and makes no further call: every guarded call is skipped and
      the cell is not marked Dead. */
  lemma SolvedShortCircuits(g: Grid, x: int, y: int, counter: int)
    requires Fenced(g) && Interior(g, x, y)
    ensures Solve(g, x, y, counter, true) == Outcome(Update(g, x, y, Path), counter + 1, true)
  {
    var g1 := Update(g, x, y, Path);
    EmptyCountUpdate(g, x, y, Path);
    NoNewEmptyFenced(g, g1);
    var o0 := Outcome(g1, counter + 1, true);
    StepEntersOnlyEmpty(o0, x + 1, y);
    StepEntersOnlyEmpty(o0, x, y - 1);
    StepEntersOnlyEmpty(o0, x - 1, y);
    StepEntersOnlyEmpty(o0, x, y + 1);
    assert Around(o0, x, y) == o0;
  }

  /** The grid holds no Dead cell, as after initMaze and reading a maze. */
  ghost predicate NoDead(g: Grid) {
    forall i, j :: 0 <= i < |g| && 0 <= j < |g[i]| ==> g[i][j] != Dead
  }

  /** A search from the start cell followed by finalMaze. After a failed
      search finalMaze gives back exactly the maze that was searched; after a
      successful one it differs from that maze only in formerly Empty cells
      that now hold Path. */
  lemma SearchThenFinal(g: Grid, sx: int, sy: int, counter: int)
    requires Fenced(g) && Interior(g, sx, sy) && g[sx][sy] == Start && NoDead(g)
    ensures var o := Solve(g, sx, sy, counter, false);
            var r := Restored(o.grid, sx, sy);
            SameShape(g, r) &&
            (forall i, j :: 0 <= i < |g| && 0 <= j < |g[i]| ==>
               r[i][j] == g[i][j] || (g[i][j] == Empty && r[i][j] == Path)) &&
            (!o.solved ==> r == g)
  {
    var o := Solve(g, sx, sy, counter, false);
    SolveExplores(g, sx, sy, counter, false);
    SolveSettles(g, sx, sy, counter, false);
    var r := Restored(o.grid, sx, sy);
    if !o.solved {
      GridsEqual(g, r);
    }
  }

  /** (i, j) is off the outer ring of h and has neither an Empty nor a Dest
      neighbour in h: a search that enters it finds nothing more to do. */
  ghost predicate ClosedCell(h: Grid, i: int, j: int) {
    Rectangular(h) && Interior(h, i, j) && !HasNeighbour(h, i, j, Empty) && !HasNeighbour(h, i, j, Dest)
  }

  /** Every cell that changed from g to h is closed off in h. */
  ghost predicate ClosedSteps(g: Grid, h: Grid) {
    SameShape(g, h) && Rectangular(h) &&
    forall i, j {:trigger ClosedCell(h, i, j)} :: InBounds(h, i, j) && h[i][j] != g[i][j] ==> ClosedCell(h, i, j)
  }

  /** As ClosedSteps, and (x, y) itself is closed off too. */
  ghost predicate Closed(g: Grid, h: Grid, x: int, y: int) {
    ClosedSteps(g, h) && ClosedCell(h, x, y)
  }

  lemma ClosedTrans(a: Grid, b: Grid, c: Grid)
    requires ClosedSteps(a, b) && ClosedSteps(b, c) && DeadWhereChanged(b, c)
    ensures ClosedSteps(a, c)
  {
    forall i, j | InBounds(c, i, j) && c[i][j] != a[i][j] && c[i][j] == b[i][j]
      ensures ClosedCell(c, i, j)
    {
      assert ClosedCell(b, i, j);
      assert c[i + 1][j] == b[i + 1][j] || c[i + 1][j] == Dead;
      assert c[i][j - 1] == b[i][j - 1] || c[i][j - 1] == Dead;
      assert c[i - 1][j] == b[i - 1][j] || c[i - 1][j] == Dead;
      assert c[i][j + 1] == b[i][j + 1] || c[i][j + 1] == Dead;
    }
  }

  /** A call made with the flag clear that ends with the flag clear has
      closed off every cell it entered: each is Dead with neither an Empty nor
      a Dest neighbour. */
  lemma {:induction false} SolveClosed(g: Grid, x: int, y: int, counter: int)
    requires Fenced(g) && Interior(g, x, y)
    ensures var o := Solve(g, x, y, counter, false);
            !o.solved ==> Closed(g, o.grid, x, y)
    decreases Open(g, x, y), 0
  {
    var g1 := Update(g, x, y, Path);
    EmptyCountUpdate(g, x, y, Path);
    NoNewEmptyFenced(g, g1);
    if !HasNeighbour(g1, x, y, Dest) {
      var o0 := Outcome(g1, counter + 1, false);
      AroundExplores(o0, x, y);
      AroundFails(o0, x, y);
      AroundClosed(o0, x, y);
      SettleClosed(g, Around(o0, x, y), x, y);
    }
  }

  /** The Dead marking at the end of a failed call closes off (x, y). */
  lemma SettleClosed(g: Grid, o: Outcome, x: int, y: int)
    requires Fenced(g) && Fenced(o.grid) && Interior(g, x, y)
    requires !HasNeighbour(Update(g, x, y, Path), x, y, Dest)
    requires Explores(Update(g, x, y, Path), o.grid)
    requires !o.solved ==> !HasNeighbour(o.grid, x, y, Empty) &&
                           ClosedSteps(Update(g, x, y, Path), o.grid)
    ensures var r := Settle(o, x, y);
            !r.solved ==> Closed(g, r.grid, x, y)
  {
    var g1 := Update(g, x, y, Path);
    if !o.solved {
      assert o.grid[x][y] == g1[x][y];
      var h := Update(o.grid, x, y, Dead);
      assert h[x + 1][y] == o.grid[x + 1][y] && h[x][y - 1] == o.grid[x][y - 1];
      assert h[x - 1][y] == o.grid[x - 1][y] && h[x][y + 1] == o.grid[x][y + 1];
      assert o.grid[x + 1][y] == g1[x + 1][y] || Marked(o.grid[x + 1][y]);
      assert o.grid[x][y - 1] == g1[x][y - 1] || Marked(o.grid[x][y - 1]);
      assert o.grid[x - 1][y] == g1[x - 1][y] || Marked(o.grid[x - 1][y]);
      assert o.grid[x][y + 1] == g1[x][y + 1] || Marked(o.grid[x][y + 1]);
      assert ClosedSteps(o.grid, h);
      assert DeadWhereChanged(o.grid, h);
      ClosedTrans(g1, o.grid, h);
    }
  }

  /** The four guarded calls, ending with the flag clear, close off every
      cell they entered. */
  lemma {:induction false} AroundClosed(o: Outcome, x: int, y: int)
    requires Fenced(o.grid) && Interior(o.grid, x, y) && !o.solved
    ensures var r := Around(o, x, y);
            !r.solved ==> ClosedSteps(o.grid, r.grid)
    decreases EmptyCount(o.grid), 4
  {
    var o1 := Step(o, x + 1, y);
    var o2 := Step(o1, x, y - 1);
    var o3 := Step(o2, x - 1, y);
    StepClosed(o, x + 1, y);
    ClosedExtends(o.grid, o1, x, y - 1);
    ClosedExtends(o.grid, o2, x - 1, y);
    ClosedExtends(o.grid, o3, x, y + 1);
  }

  /** One more guarded call after a run of them that started on grid base. */
  lemma {:induction false} ClosedExtends(base: Grid, o: Outcome, nx: int, ny: int)
    requires Fenced(o.grid) && InBounds(o.grid, nx, ny)
    requires !o.solved ==> ClosedSteps(base, o.grid)
    ensures var r := Step(o, nx, ny);
            !r.solved ==> ClosedSteps(base, r.grid)
    decreases EmptyCount(o.grid), 3
  {
    if !o.solved {
      StepClosed(o, nx, ny);
      StepFails(o, nx, ny);
      if !Step(o, nx, ny).solved {
        ClosedTrans(base, o.grid, Step(o, nx, ny).grid);
      }
    }
  }

  /** One guarded call that ends with the flag clear closes off the cells it
      entered. */
  lemma {:induction false} StepClosed(o: Outcome, nx: int, ny: int)
    requires Fenced(o.grid) && InBounds(o.grid, nx, ny) && !o.solved
    ensures var r := Step(o, nx, ny);
            !r.solved ==> ClosedSteps(o.grid, r.grid)
    decreases EmptyCount(o.grid), 2
  {
    if o.grid[nx][ny] == Empty {
      SolveClosed(o.grid, nx, ny, o.counter);
    }
  }

  /** No cell of g is marked Path or Dead, as in a maze just read in. */
  ghost predicate Unmarked(g: Grid) {
    forall i, j :: 0 <= i < |g| && 0 <= j < |g[i]| ==> !Marked(g[i][j])
  }

  /** A walk in g from (x, y) through Empty cells: consecutive cells are
      orthogonal neighbours, and every cell is Empty in g or is (x, y). */
  ghost predicate Walk(g: Grid, x: int, y: int, w: seq<Pos>) {
    Rectangular(g) && |w| > 0 && w[0] == (x, y) &&
    (forall k :: 0 <= k < |w| ==>
       InBounds(g, w[k].0, w[k].1) && (w[k] == (x, y) || g[w[k].0][w[k].1] == Empty)) &&
    (forall k :: 0 < k < |w| ==> Adjacent(w[k - 1].0, w[k - 1].1, w[k].0, w[k].1))
  }

  /** A walk whose last cell has Dest as a neighbour. */
  ghost predicate WalkToDest(g: Grid, x: int, y: int, w: seq<Pos>) {
    Walk(g, x, y, w) &&
    var last := w[|w| - 1];
    Interior(g, last.0, last.1) && HasNeighbour(g, last.0, last.1, Dest)
  }

  /** Completeness: a search started with the flag clear fails only if no
      walk through Empty cells leads from (x, y) to a neighbour of Dest. Every
      cell of such a walk would have been entered, and the last one would have
      seen Dest. */
  lemma SearchComplete(g: Grid, x: int, y: int, counter: int, w: seq<Pos>)
    requires Fenced(g) && Interior(g, x, y) && g[x][y] != Dest
    requires WalkToDest(g, x, y, w)
    ensures Solve(g, x, y, counter, false).solved
  {
    if !Solve(g, x, y, counter, false).solved {
      var h := Solve(g, x, y, counter, false).grid;
      SolveExplores(g, x, y, counter, false);
      SolveClosed(g, x, y, counter);
      WalkEntered(g, h, x, y, w);
      var (i, j) := w[|w| - 1];
      EnteredSeesNoDest(g, h, x, y, i, j);
      assert false;
    }
  }

  /** On the grid h left by a failed search from (x, y), every cell of a walk
      from (x, y) through Empty cells of g has been entered. */
  lemma WalkEntered(g: Grid, h: Grid, x: int, y: int, w: seq<Pos>)
    requires Rectangular(g) && ExploresFrom(g, h, x, y) && Closed(g, h, x, y)
    requires Walk(g, x, y, w)
    ensures var (i, j) := w[|w| - 1];
            w[|w| - 1] == (x, y) || h[i][j] != g[i][j]
  {
    var k := 0;
    while k < |w| - 1
      invariant 0 <= k < |w|
      invariant w[k] == (x, y) || h[w[k].0][w[k].1] != g[w[k].0][w[k].1]
    {
      var (i, j) := w[k];
      var (a, b) := w[k + 1];
      assert ClosedCell(h, i, j);
      HasNeighbourAdjacent(h, i, j, Empty);
      assert Adjacent(i, j, a, b);
      k := k + 1;
    }
  }

  /** A cell entered by a failed search from (x, y) had no Dest neighbour in
      the grid the search started from. */
  lemma EnteredSeesNoDest(g: Grid, h: Grid, x: int, y: int, i: int, j: int)
    requires Rectangular(g) && ExploresFrom(g, h, x, y) && Closed(g, h, x, y) && g[x][y] != Dest
    requires InBounds(g, i, j) && ((i == x && j == y) || h[i][j] != g[i][j])
    ensures Interior(g, i, j) && !HasNeighbour(g, i, j, Dest)
  {
    assert ClosedCell(h, i, j);
    assert h[i + 1][j] == g[i + 1][j] || Marked(h[i + 1][j]);
    assert h[i][j - 1] == g[i][j - 1] || Marked(h[i][j - 1]);
    assert h[i - 1][j] == g[i - 1][j] || Marked(h[i - 1][j]);
    assert h[i][j + 1] == g[i][j + 1] || Marked(h[i][j + 1]);
  }

  /** Soundness: when the search started with the flag clear on an unmarked
      maze succeeds, the route it leaves is a walk through Empty cells from
      (x, y) to a neighbour of Dest. */
  lemma SearchSound(g: Grid, x: int, y: int, counter: int) returns (w: seq<Pos>)
    requires Fenced(g) && Interior(g, x, y) && Unmarked(g)
    requires Solve(g, x, y, counter, false).solved
    ensures Route(Solve(g, x, y, counter, false).grid, w)
    ensures WalkToDest(g, x, y, w)
  {
    var h := Solve(g, x, y, counter, false).grid;
    SolveExplores(g, x, y, counter, false);
    w := SolveRoute(g, x, y, counter);
    forall k | 0 <= k < |w|
      ensures InBounds(g, w[k].0, w[k].1) && (w[k] == (x, y) || g[w[k].0][w[k].1] == Empty)
    {
      assert h[w[k].0][w[k].1] == Path;
    }
    var (i, j) := w[|w| - 1];
    assert HasNeighbour(h, i, j, Dest);
    assert h[i + 1][j] == g[i + 1][j] || Marked(h[i + 1][j]) || (i + 1 == x && j == y);
    assert h[i][j - 1] == g[i][j - 1] || Marked(h[i][j - 1]) || (i == x && j - 1 == y);
    assert h[i - 1][j] == g[i - 1][j] || Marked(h[i - 1][j]) || (i - 1 == x && j == y);
    assert h[i][j + 1] == g[i][j + 1] || Marked(h[i][j + 1]) || (i == x && j + 1 == y);
  }

  /** The search from (x, y) on an unmarked maze succeeds exactly when some
      walk through Empty cells leads from (x, y) to a neighbour of Dest. */
  lemma SearchCorrect(g: Grid, x: int, y: int, counter: int)
    requires Fenced(g) && Interior(g, x, y) && Unmarked(g) && g[x][y] != Dest
    ensures Solve(g, x, y, counter, false).solved <==> exists w :: WalkToDest(g, x, y, w)
  {
    if Solve(g, x, y, counter, false).solved {
      var w := SearchSound(g, x, y, counter);
    } else {
      forall w | WalkToDest(g, x, y, w)
        ensures false
      {
        SearchComplete(g, x, y, counter, w);
      }
    }
  }
}
