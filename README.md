# Maze solver: a verified model of the recursive depth-first search

The program keeps a maze as a fixed 22 x 81 grid of display characters. The
characters are: wall (the block graphic, code 219), `S` start, `D`
destination, ` ` empty, `*` path and `X` dead end. `initMaze` blanks the
grid. A loader fills it in and reports the start cell. Then
`mazeSolver` runs a recursive depth-first search from the start cell:

- Each call adds one to a shared counter and marks its cell as path.
- If a neighbour is the destination, the call sets a shared "solved" flag
  and stops.
- Otherwise it recurses into each neighbour that is empty at that moment,
  as long as the flag is clear.
- At the end it marks its own cell dead if no neighbour is empty any more
  and the flag is still clear.

`checkChar` asks whether one of the four neighbours holds a given
character. `finalMaze` turns every dead cell back into an empty one and
puts the start marker back.

The model has three modules.

- `Maze` (maze.dfy) holds the cell characters, the grid size and a value
  view of the grid (`Grid = seq<seq<Cell>>`). It also holds `InitMaze` and
  `FinalMaze`, written as loops over an `array2<char>`. Each is proved
  against what it must leave behind. For `FinalMaze` that is the ghost
  function `Restored`.
- `Solver` (solver.dfy) holds `CheckChar` and the search itself.
  - The ghost functions `Solve`, `Around`, `Step`, `Enter` and `Settle`
    describe one call, its four guarded recursive calls and its final dead
    marking, on grid values.
  - The method `MazeSolver` runs the search in place on the array. It is
    proved to leave exactly the grid, counter and flag that `Solve`
    describes.
  - The program passes the counter and the flag by reference. Here each is
    passed in as a value and its final value is returned, so every frame
    still sees the one shared value.
  - `MazeSolver` also states the stop on success on the array itself: with
    the destination next to the cell on entry, the call only marks that
    cell as path, counts itself and reports success.
- `SolverProperties` (properties.dfy) proves what the search promises
  about `Solve`:
  - the frame: only empty cells are entered;
  - the counter equals the number of cells entered;
  - dead marking;
  - the flag short-circuit;
  - the route of path cells left by a success;
  - what `finalMaze` leaves after a search;
  - correctness in both directions: the search succeeds exactly when some
    walk through empty cells leads from the start to a neighbour of the
    destination.

The search reads neighbours without bounds checks. The model requires that
every empty cell, and the start cell, lie off the outer ring of the grid
(`Fenced`, `Interior`). This is enough to keep every read on the grid, but
it is more than the program needs: the program only needs the cells the
search actually reaches to be off the ring (see "## Left out").

The comment at Maze.cpp:187 says the order is "right, down, left, up". The
code tries the cells (X+1, Y), (X, Y-1), (X-1, Y) and (X, Y+1), with X the
row: below, left, above, right. The model follows the code.

Every call enters a distinct cell that was empty until then, or the start
cell. So the final counter is exactly the number of cells entered
(`SolveExplores`), with no extra increment on success.

## Model

| member | source | states |
|---|---|---|
| Maze.InitMaze | Maze.cpp:248-258 | every cell of the MAXROWS x MAXCOLS grid holds the empty character afterwards |
| Maze.Restored | Maze.cpp:260-274 | the grid finalMaze leaves: same shape, no dead cell anywhere, every dead cell other than the start cell now empty, every other cell unchanged, and the start marker at the start cell |
| Maze.FinalMaze | Maze.cpp:260-274 | the array afterwards holds exactly the grid Restored describes |
| Solver.CheckChar | Maze.cpp:226-246 | the result is true exactly when some cell orthogonally adjacent to (x, y) holds the character checked for |
| Solver.HasNeighbourAdjacent | Maze.cpp:229-245 | the four reads below, left, above and right cover exactly the cells at Manhattan distance one |
| Solver.Solve | Maze.cpp:185-224 | one call leaves every empty cell off the outer ring, enters at least one cell (strictly fewer empty cells than it may enter), and never clears a set flag |
| Solver.Around | Maze.cpp:200-216 | the four guarded calls do not raise the number of empty cells, keep every empty cell off the outer ring, and never clear a set flag (the cell-by-cell frame is AroundExplores) |
| Solver.Settle | Maze.cpp:217-221 | the final dead marking leaves the counter and flag alone, does not raise the number of empty cells and keeps every empty cell off the outer ring (the cell-by-cell frame is SettleExplores) |
| Solver.Step | Maze.cpp:201-204 | one guarded call does not raise the number of empty cells, keeps every empty cell off the outer ring, and never clears a set flag (the cell-by-cell frame is StepExplores) |
| Solver.Enter | Maze.cpp:201-204 | the guard of a recursive call does not raise the number of empty cells, keeps every empty cell off the outer ring, and never clears a set flag (the cell-by-cell frame is StepExplores) |
| Solver.MazeSolver | Maze.cpp:185-224 | the array, counter and flag after the call are those of Solve, and the value returned equals the final flag; when the destination is next to (x, y) on entry, the call returns true, counts itself once and changes only (x, y), to path |
| Solver.Explore | Maze.cpp:200-216 | the four guarded recursive calls, in program order, leave what Around describes |
| Solver.DescendTwice | Maze.cpp:201-216 | two consecutive guarded calls leave what two Steps describe |
| Solver.Descend | Maze.cpp:201-204 | one guarded call leaves what Step describes; when its cell is not empty or the flag is already set, the array, counter and flag are unchanged |
| SolverProperties.SolveExplores | Maze.cpp:190-191 | frame and counter of one call: every changed cell other than (x, y) was empty and is now path or dead, (x, y) ends path or dead, and the counter grows by exactly the number of cells entered |
| SolverProperties.AroundExplores | Maze.cpp:200-216 | the four guarded calls only turn empty cells into path or dead, and add to the counter exactly the number of cells they entered |
| SolverProperties.StepExplores | Maze.cpp:201-204 | one guarded call only turns empty cells into path or dead, and adds to the counter exactly the number of cells it entered |
| SolverProperties.SolveSettles | Maze.cpp:217-222 | a call ending with the flag set leaves its cell path; one ending with the flag clear leaves its cell dead with no empty neighbour, and every cell it changed is dead |
| SolverProperties.AroundFails | Maze.cpp:200-216 | when the four guarded calls end with the flag clear, no neighbour is empty and every changed cell is dead |
| SolverProperties.StepFails | Maze.cpp:201-204 | a guarded call ending with the flag clear leaves its target cell non-empty and changes cells only to dead |
| SolverProperties.SolveRoute | Maze.cpp:193-198 | a call that sets the flag leaves a chain of adjacent path cells from (x, y) to a cell next to the destination |
| SolverProperties.AroundRoute | Maze.cpp:200-216 | four guarded calls from a path cell that set the flag leave a route of path cells from that cell |
| SolverProperties.StepRoute | Maze.cpp:201-204 | a guarded call keeps the calling cell path, does nothing once the flag is set, and leaves a route when it sets the flag |
| SolverProperties.SolvedShortCircuits | Maze.cpp:201-221 | a call made with the flag already set marks its cell path, counts itself and skips all four recursive calls and the dead marking |
| SolverProperties.SearchThenFinal | Maze.cpp:76-77 | a search from the start cell followed by finalMaze gives back the original maze after a failure, and after a success differs from it only in formerly empty cells that now hold path |
| SolverProperties.SolveClosed | Maze.cpp:217-221 | a call that ends with the flag clear leaves every cell it entered with neither an empty nor a destination neighbour |
| SolverProperties.AroundClosed | Maze.cpp:200-216 | four guarded calls ending with the flag clear close off every cell they entered |
| SolverProperties.StepClosed | Maze.cpp:201-204 | one guarded call ending with the flag clear closes off every cell it entered |
| SolverProperties.SearchComplete | Maze.cpp:185-224 | if a walk through empty cells leads from the start to a neighbour of the destination, the search succeeds |
| SolverProperties.SearchSound | Maze.cpp:185-224 | if the search succeeds on an unmarked maze, the walk it returns is a route of path cells in the grid the search leaves, and in the original maze it is a walk through empty cells from the start to a neighbour of the destination |
| SolverProperties.SearchCorrect | Maze.cpp:185-224 | the search succeeds exactly when a walk through empty cells leads from the start cell to a neighbour of the destination |

## Left out

- `main`, `display` and `getMaze` (Maze.cpp:57-183) are console and file I/O and are not part of this model. The start coordinates, the maze contents and the initial counter and flag are parameters.
- The wall character is the block graphic `(char)219`. With a signed `char` its value is negative. The search only compares cells for equality, so the model takes it as the character with code 219.
- The counter is an unbounded integer. The program's `int` cannot overflow on a 22 x 81 grid, since each cell is entered at most once.
- The program passes the counter and the flag by reference. The model passes them in as values and returns their final values. The shared-state behaviour is the same, but aliasing is not modelled.
- The four guarded calls are one function in the program. In the model they are factored into `Explore`, `DescendTwice` and `Descend`, with the same order and guards.
- Solver.MazeSolver, Solver.Solve: the precondition `Fenced` (every empty cell off the outer ring) is stronger than the program needs, and it excludes the grids `getMaze` builds. `getMaze` copies 81 characters per line (Maze.cpp:144-161), so column 80 holds the line's terminator (for a line of exactly 80 characters) or a stale byte after it, and that usually becomes empty. Rows past the end of the file stay empty from `initMaze` (Maze.cpp:66). The program only needs the empty cells the search can reach to be off the ring. The model does not cover searches on grids with unreachable empty cells on the ring.
- In `main`, `startX` is left uninitialised when the maze has no start character (Maze.cpp:62). That path belongs to `main` and is not modelled.
- SolverProperties.SearchSound, SolverProperties.SearchCorrect: these require a maze with no path or dead cells on entry, as in a freshly loaded maze.
- SolverProperties.SearchComplete, SolverProperties.SearchCorrect: these require a start cell that is not the destination.
