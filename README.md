# Maze solver core, modelled and verified in Dafny

This project models the maze engine of `maze.cpp`. A maze is a rectangular
`Grid<bool>`: `true` is a corridor, `false` a wall; the start is (0, 0) and the
end is (numRows − 1, numCols − 1). The model covers:

- `generateValidMoves`: the open orthogonal neighbours of a location;
- `validatePath`: checks a path and raises the first of its errors;
- `solveMazeBFS` and `solveMazeDFS`: search over whole paths. One uses a FIFO
  queue, the other a LIFO stack. Each claims a cell on enqueue by clearing it
  in a private copy `newMaze`. The start is not claimed when the search is
  seeded; the first path that steps back onto it claims it;
- the grid-filling part of `readMazeFile`: lines of `'@'` (wall) and `'-'`
  (corridor) become the maze. A ragged row or another character stops it with
  an error.

Layout, one module per file:

| file | module | contents |
|---|---|---|
| `wrappers.dfy` | `Wrappers` | `Option`, `Result` |
| `grids.dfy` | `Grids` | `Loc`, `Grid` as `seq<seq<bool>>`, bounds, moves, cell count |
| `moves.dfy` | `Moves` | `generateValidMoves` as a function with the grid's range error |
| `paths.dfy` | `Paths` | walks, solutions, solvability |
| `validate.dfy` | `Validate` | `validatePath` as a method with a `for` loop, against the function `Validation` |
| `search.dfy` | `Search` | the expansion loop shared by both solvers (in place on `newMaze: array2<bool>`) and the frontier invariant |
| `bfs.dfy`, `dfs.dfy` | `Bfs`, `Dfs` | the two solvers as `while` loops; BFS also carries a ghost level map for shortest paths |
| `loader.dfy` | `Loader` | the nested-loop fill of `readMazeFile` and its error conditions |
| `scenarios.dfy` | `Scenarios` | three small mazes solved end to end, and the solvers as their comments document them |

Library `error(...)` calls become values:
- `Outcome.Raises(PathError)` for `validatePath`;
- `Result.Failure(GridError)` for an out-of-range grid read;
- `Option<LoadError>` for the loader.

The caller's maze is a value. Nothing can write it, and each solver works on
its own fresh `array2` copy.

Each solver has two ghost variables:
- `claimed`: the cells cleared in `newMaze`;
- `enqueued`: the number of enqueues after the seed.

The loop's decreasing measure is the pair (numRows·numCols − `enqueued`,
length of the frontier), ordered lexicographically. An expansion that enqueues
something lowers the first component; one that enqueues nothing keeps it and
shortens the frontier.

`SolveMazeBFS` also carries a ghost map from each reached cell to its level:
the number of cells of the path that first reached it, minus one. Its
invariant gives the shortest-path result. It holds because the queue is
ordered by length, with lengths at most one apart, and every cell is graded:
each move out of it leads to a level at most one higher.

Both solvers iterate over the set returned by `generateValidMoves`. The model
takes those sets in an arbitrary order (`:|`), so every result holds for every
enumeration order.

## Model

| member | source | states |
|---|---|---|
| Moves.GenerateValidMoves | maze.cpp:34-79 | every location returned is an open orthogonal neighbour of `cur`. For `cur` inside the grid the call succeeds and returns every such neighbour. A failure is the grid's range error, at an orthogonal neighbour of `cur` outside the grid |
| Moves.Neighbours | maze.cpp:34-79 | for a cell inside the grid: `y` is returned if and only if `y` is an open orthogonal neighbour |
| Moves.RangeError | maze.cpp:34-79 | the call fails if and only if one of its guarded reads (top, bottom, left, right, each only when its guard holds) falls outside the grid. Its error is then at the first such read, every earlier read being inside the grid |
| Moves.NeighbourFacts | maze.cpp:34-79 | for a cell inside the grid: never the cell itself (so `temp != lastLoc` at maze.cpp:175 and 227 always holds), at most 4 cells, empty exactly when all four sides are walls or off the grid, exactly 4 when all four sides are corridors |
| Validate.ValidatePath | maze.cpp:91-132 | the loop with its `visited` set and `validSet` returns exactly `Validation(g, path)`. It takes the grid and the path as values and writes neither |
| Validate.ValidationCompletes | maze.cpp:91-132 | validation completes if and only if the path is non-empty, starts at (0, 0), ends at the end, repeats no cell and takes only legal moves |
| Validate.ValidationRaises | maze.cpp:92-123 | each error, both directions, in the code's order: empty path; the range error exactly when `generateValidMoves(path[0])` fails, which needs `path[0]` off the grid; wrong start or end; at the first failing index, a loop if the cell repeats an earlier one, else an illegal move |
| Validate.StepsFromCompletes | maze.cpp:114-131 | after a sound prefix, the loop completes if and only if the whole path is loop-free with legal moves |
| Validate.StepsFromFault | maze.cpp:114-131 | the loop stops at the first faulty index and raises a loop before an illegal move |
| Search.Expand | maze.cpp:173-181 | the inner loop, in any order: it clears in `newMaze` exactly the legal moves not yet claimed, and enqueues the path extended by each of them. Nothing else in `newMaze` changes |
| Search.SearchStep | maze.cpp:157-183 | one dequeue and expansion keeps the frontier invariant: frontier paths are walks from (0, 0); their later cells are claimed; they are loop-free unless they stepped back onto (0, 0); each reached cell is expanded or has a waiting path; a path to the end is never dropped |
| Search.ExtensionTracked | maze.cpp:175-180 | extending a frontier path by an unclaimed legal move gives a loop-free path, or one that steps back onto (0, 0). That one is a dead end: every move out of (0, 0) is already reached, and stays reached however many cells are claimed later |
| Search.SearchExhausted | maze.cpp:157-186 | when the frontier is empty, no solution exists |
| Search.SearchFound | maze.cpp:165-168 | a frontier path whose last cell is the end is a solution |
| Search.ClaimBound | maze.cpp:175-177 | only grid cells are claimed, so there are at most numRows·numCols claims |
| Search.SolverResult | maze.cpp:165-186 | what both solvers return: it ends at the end if and only if the maze is solvable. `validatePath` then completes, and otherwise raises the endpoint error. On a 1×1 maze it is `[(0,0)]` |
| Dfs.SolveMazeDFS | maze.cpp:195-239 | the stack search terminates. The result is a non-empty walk from (0, 0). It ends at the end if and only if the maze is solvable, and `validatePath` then accepts it. On exhaustion it raises the endpoint error. On a 1×1 maze it is `[(0,0)]`. The ghost count `enqueued`, which the loop invariant keeps equal to the number of claimed cells, is at most numRows·numCols |
| Bfs.SolveMazeBFS | maze.cpp:143-187 | everything `SolveMazeDFS` states, and in addition, when the result ends at the end, no solution has fewer cells |
| Bfs.LevelStep | maze.cpp:157-183 | one dequeue and expansion keeps the level invariant: the queue is ordered by length with lengths at most one apart; each reached cell keeps its first level; each cell is graded or has a waiting path at its level |
| Bfs.NothingFresh | maze.cpp:173-181 | a dequeued path that stepped back onto (0, 0) finds every move already claimed, so it enqueues nothing |
| Bfs.BfsShortest | maze.cpp:138-168 | the first path to the end taken off the queue is no longer than any solution |
| Bfs.LevelsAlong | maze.cpp:157-183 | along a solution shorter than the front path, each cell has a level no greater than its index |
| Paths.NoSolutionOutside | maze.cpp:184-186 | if a set holds (0, 0), is closed under legal moves and misses the end, then the maze has no solution |
| Paths.SingleCell | maze.cpp:165-168 | on a 1×1 maze the only walk is `[(0,0)]`, and it is a solution |
| Loader.ReadMazeLines | maze.cpp:262-280 | the nested loops return exactly the fault `LoadFault(lines)`. With no lines, the maze passed in is unchanged. Otherwise the maze is `Loaded(lines)` |
| Loader.Loaded | maze.cpp:262-280 | the maze is the number of lines by the length of the first line. A cell is a corridor exactly when it was written before the loader stopped and its character is `'-'` |
| Loader.LoadSucceeds | maze.cpp:265-279 | loading succeeds if and only if there is a line, every line has the first line's length, and every character is `'@'` or `'-'` |
| Loader.LoadFails | maze.cpp:265-279 | each error, both directions: no lines; the first ragged row, all earlier rows being well formed; or the first bad character in row-major order, in a row of the right length |
| Loader.CharFaultSome | maze.cpp:269-278 | the inner loop stops at the first character, left to right, that is not `'@'` or `'-'` |
| Loader.RowFaultSome | maze.cpp:265-279 | the outer loop stops at the first row that is ragged or holds a bad character, checking the length before the characters |
| Loader.LoadedCells | maze.cpp:271-275 | on success, `'-'` becomes a corridor and `'@'` a wall |
| Loader.LoadedIsGrid | maze.cpp:262-264 | a successful load with a non-empty first line gives a rectangular maze of at least 1×1 with those dimensions |
| Scenarios.WallTopRight | maze.cpp:143-239 | the maze `["-@","--"]` goes through the loader. Both solvers then return `[(0,0),(1,0),(1,1)]` |
| Scenarios.WalledStart | maze.cpp:106-112 | on `["@-","--"]` the start is a wall. Both solvers still return a 3-cell path from it, and `validatePath` accepts that path |
| Scenarios.OffGridStart | maze.cpp:91-112 | on the 1×2 maze `["--"]`, the path `[(0,2)]` starts off the grid, yet `validatePath` raises the endpoint error, not the range error |
| Scenarios.Disconnected | maze.cpp:184-186 | on `["-@","@-"]` both solvers, as written, return `[(0,0)]` |
| Scenarios.SolveMazeBFSAsDocumented | maze.cpp:134-142 | as the comment says: the empty path if and only if the maze has no solution. Otherwise it returns a shortest solution, and `validatePath` accepts it |
| Scenarios.SolveMazeDFSAsDocumented | maze.cpp:189-194 | as the comment says: the empty path if and only if the maze has no solution. Otherwise it returns a solution, and `validatePath` accepts it |
| Scenarios.DisconnectedAsDocumented | maze.cpp:140-141 | on `["-@","@-"]` both documented solvers return the empty path |

## Left out

- `drawMaze` and `highlightPath` (maze.cpp:151, 163, 203, 215): graphics calls into `mazegraphics.h`. They only display the search and do not change its course.
- File access in `readMazeFile` (maze.cpp:252-257): the model starts from the sequence of lines. It does not model `openFile`, `readEntire` or `stringSplit`, including how they treat a trailing newline. `mazegraphics.h`, `filelib.h` and `strlib.h` are not part of this model.
- `readSolutionFile` (maze.cpp:288-298): it reads a path through the library's stream operator, which is not part of this model.
- `main.cpp`: a driver that prints results. It has no logic of its own.
- The containers `Grid`, `Set`, `Queue`, `Stack` and `Vector` become a `seq<seq<bool>>` or `array2<bool>`, `set`, and `seq`. `Set`'s iteration order is unmodelled: the model proves the properties for every order. So it does not state which solution DFS returns, or which of several shortest solutions BFS returns.
- `Grid::resize` is taken to fill the new maze with `false`. This is an assumption about `grid.h`.
- `int` coordinates and sizes are unbounded integers. 32-bit overflow cannot arise for a maze small enough to fit in memory.
- `char` is modelled as Dafny's `char`. There is no byte encoding.
- "The caller's maze and path are never written" is not a separate proved statement. The grid and the path are passed as values, and each solver writes only its own fresh `newMaze`.
- Moves.GenerateValidMoves, Validate.ValidatePath, Bfs.SolveMazeBFS, Dfs.SolveMazeDFS: grids with no rows or no columns are not modelled (they require a maze of at least 1×1), although the loader builds a maze with no columns from a file whose lines are all empty.
- Dfs.SolveMazeDFS, Bfs.SolveMazeBFS: the bound on `enqueued` rests on the loop invariant that ties it to the claimed cells. The claimed set is a ghost variable local to the loop, so no postcondition ties the returned count to the enqueues themselves.
- Dfs.SolveMazeDFS: as stated above, it does not say which solution is found, because that depends on the unmodelled enumeration order.
- Where the code departs from its documented intent, the model follows the code:
  - the solvers return a non-empty path on exhaustion (see Findings);
  - a walled start is searched from, and `validatePath` accepts it, because it never checks that its first cell is a corridor;
  - `validatePath` calls `generateValidMoves` on `path[0]` before the endpoint check. An off-grid `path[0]` therefore raises the grid's range error when one of the guarded neighbour reads falls off the grid, and the endpoint error otherwise (for example, on the 1×2 maze `["--"]` the path `[(0,2)]` gets the endpoint error).

## Findings

| source | as written | input that shows it | evidently intended | confidence | as-written member | corrected member |
|---|---|---|---|---|---|---|
| maze.cpp:186 | when the queue runs out, `return path` returns the last dequeued path, which is never empty | `["-@","@-"]`: the result is `[(0,0)]` | the empty vector, as the comment at maze.cpp:140-141 promises | not executed | Scenarios.Disconnected | Scenarios.SolveMazeBFSAsDocumented |
| maze.cpp:238 | when the stack runs out, `return path` returns the last popped path, which is never empty | `["-@","@-"]`: the result is `[(0,0)]` | the empty vector, as the comment at maze.cpp:192-193 promises | not executed | Scenarios.Disconnected | Scenarios.SolveMazeDFSAsDocumented |
