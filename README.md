# cppathfinding core in Dafny

This project models the path-finding core of `src/main.cpp`:

- the `MAP` object: the character matrix `mapMatrix` read from a map file, its dimensions
  `NUM_COLUMNS`, `NUM_ROWS` and `NUM_VERTICES`, and the start coordinates `StartX`/`StartY`;
- `ALGOS::findStart`, the column-by-column scan for the start symbol `'S'`;
- `ALGOS::dfs`, the recursive depth-first flood search. It works in place on the matrix. It
  refuses `'#'`, `'*'` and `'v'`, accepts `'E'`, and marks every other cell it enters with `'v'`.
  It then tries the east, west, south and north neighbours in that order and stops at the first
  success.

Layout:

- `grid.dfy` (module `Grid`) holds the matrix as a value (`seq<string>`, indexed `g[y][x]`).
  It also holds the cell classes (blocked, passable, open) and 4-connected walks and
  reachability. It defines the frame `Evolves` of what a search may write, and the shape
  `Closed` that a failed search leaves behind. Finally it counts interior cells.
- `maze.dfy` (module `Maze`) has class `Map` (the `MAP` object, fields updated in place) and the
  dimension arithmetic of `initMap` as the function `Dimensions`.
- `algos.dfy` (module `Algos`) has three parts:
  - `FindStart`, a method with nested loops over the `Map` fields;
  - `Explore`/`TryNeighbours`, the search as a function of the grid, the reference the method
    is proved against, with its soundness and completeness lemmas;
  - `Dfs`, the recursive method that rewrites `m.grid` in place. Its contract says it returns
    and leaves exactly what `Explore` does.

The source does no bounds checks. The model assumes a *walled* grid: rectangular, with every
border cell `'#'`, which is the map convention. This is sufficient for the search to stay inside
the grid, but not necessary: it is enough that the region reachable from the start is fenced by
`'#'`. Under the walled precondition the method terminates.
The termination measure is the number of open cells, which drops with every `'v'` written.
The method answers `true` exactly when an `'E'` is 4-connected to the start through cells
other than `'#'`, `'*'` and `'v'`. When it answers `false`, every cell so connected to the
start has been marked `'v'`.

The search marks only with `'v'`, in the grid itself. That includes the start cell: its `'S'`
is overwritten. It tests for `'*'` but never writes one, and keeps no separate visited table.
The model follows the code on all of these points.

The four statements `if (dfs(m, neighbour)) return true;` at src/main.cpp:96-99 appear in `Dfs`
as one loop over `k` = 0..3. `Neighbour(x, y, k)` gives east, west, south and north in the
source's order, and the loop returns at the first success, as the source does.

## Model

| member | source | states |
|---|---|---|
| Maze.Map.constructor | src/main.cpp:10-19 | a fresh `MAP` has an empty `mapMatrix` |
| Maze.Map.InitMap | src/main.cpp:44-50 | the lines are appended to the matrix; afterwards the column count is the width of the first line, the row count is the number of lines, and on a matrix of at least 2 by 2 the vertex count is the number of cells inside the border (`Valid`) |
| Maze.Dimensions | src/main.cpp:48-50 | width from the first line only, height as the line count; on a grid of at least 2 by 2, `NUM_VERTICES` equals the number of interior cells |
| Grid.InteriorSize | src/main.cpp:50 | a columns-by-rows grid has exactly (columns - 2) * (rows - 2) cells off its border |
| Maze.OpenCellsWithinVertices | src/main.cpp:50 | a walled grid of at least 2 by 2 has at most `NUM_VERTICES` open cells |
| Algos.MarksWithinVertices | src/main.cpp:93 | on such a grid the search overwrites at most `NUM_VERTICES` (src/main.cpp:50) cells |
| Algos.FindStart | src/main.cpp:63-75 | if some cell in the `NUM_COLUMNS` by `NUM_ROWS` area holds `'S'`, the start fields name an `'S'` and no `'S'` comes before it in column-major order (x outer, y inner); if there is none, the start fields are unchanged; the matrix is never written |
| Grid.Mark | src/main.cpp:93 | the write of the search: the cell becomes `'v'`, every other cell and every row length stays; marking a non-wall cell keeps a walled grid walled |
| Grid.MarkShrinks | src/main.cpp:93 | marking an open cell removes exactly that cell from the open set: the termination measure drops by one |
| Algos.Neighbour | src/main.cpp:96-99 | each of the four cells tried is 4-adjacent to the current one |
| Algos.Explore | src/main.cpp:82-103 | the search only changes open cells, only into `'v'`, and keeps the shape of the grid (`Evolves`) and its wall border; an open starting cell ends up `'v'` |
| Algos.TryNeighbours | src/main.cpp:96-101 | trying the neighbours from the k-th on also only marks open cells with `'v'` and keeps the wall border |
| Algos.ExploreStops | src/main.cpp:84-90 | on `'#'`, `'*'` or `'v'` the search answers false and on `'E'` true, both with the grid unchanged; on any other cell the grid changes |
| Grid.EvolvesKeepsFixed | src/main.cpp:84-93 | across any number of search steps every `'#'`, `'*'`, `'v'` and `'E'` keeps its symbol, and a changed cell holds `'v'` |
| Algos.ExploreSound | src/main.cpp:82-101 | an answer of true means an exit is reachable from the start through passable cells |
| Algos.ExploreFailureClosed | src/main.cpp:82-101 | an answer of false leaves every changed cell with all four neighbours refused, and the start refused |
| Grid.ClosedCoversReach | src/main.cpp:82-101 | such a closed result means no exit was reachable, and every reachable cell now holds `'v'` |
| Algos.ExploreCorrect | src/main.cpp:82-101 | true exactly when an exit is reachable through cells other than `'#'`, `'*'`, `'v'`; on false every such reachable cell is `'v'` |
| Algos.EastThenWest | src/main.cpp:93-97 | the east neighbour is searched first, on the grid with the current cell just marked, and its success is the outcome of the whole search; only after east fails is west searched, on the grid east left, and its success is then the outcome of the whole search |
| Algos.ExitEastFirst | src/main.cpp:93-96 | an exit east of an open cell ends the search after the one mark; west, south and north are never entered |
| Algos.Dfs | src/main.cpp:82-103 | the in-place search returns and leaves exactly what `Explore` does, writes only `'v'` over open cells, and answers true exactly when an exit is reachable from (x, y); it terminates because the number of open cells strictly drops before each recursive call |

## Left out

- File reading in `initMap` (`ifstream`, `getline`, the `runtime_error` when the file cannot be
  opened, src/main.cpp:36-46, 53) is I/O. `InitMap` takes the lines of the file as a parameter.
- `main` (src/main.cpp:116-146) is a fixed map path and console output with `cout`, so it is
  presentation only.
- Dimensions: the 32-bit `int` arithmetic of src/main.cpp:48-50 is not modelled. The model
  uses unbounded integers. In the source, `(NUM_COLUMNS - 2) * (NUM_ROWS - 2)` overflows
  (undefined behaviour) once the interior has more than 2^31 - 1 cells, for example on a
  46343 by 46343 map. The conversion of `size()` to `int` also goes wrong past 2^31 - 1 rows
  or columns.
- Dfs: the call stack is not modelled. The source's recursion is as deep as the current
  search path, up to one frame per open cell, so on a large open map (say 1000 by 1000) the
  program can crash with a stack overflow. The model's search always returns.
- Dfs: grids that are not walled but still keep the search inside the grid are excluded by
  the precondition. Examples are a map whose lines end in `'\r'` (CRLF line endings), whose
  last column is then `'\r'` behind a `'#'` column, and a map with an open row that cannot be
  reached from the start.
- Undefined behaviour is modelled as preconditions, not as behaviour:
  - `initMap` on an empty matrix (`mapMatrix[0]`);
  - `findStart` on a row shorter than `NUM_COLUMNS`. The precondition excludes every such row;
    the source reads past it only when the scan reaches that row before finding an `'S'`
    (index `size()` itself reads `'\0'`, which is defined);
  - `dfs` stepping outside a grid that is not walled or not rectangular.
- `StartX`/`StartY` are uninitialised `int`s in the source. The model's constructor leaves them
  unconstrained as well, so nothing is claimed about their value before an `'S'` is found.
- Dfs: the contract states the stop cases (`'#'`, `'*'`, `'v'` and `'E'`) and the marking on
  failure through its equality with `Explore`, together with the lemmas `ExploreStops`,
  `ExploreCorrect` and the postcondition of `Explore`. It does not repeat them as separate
  postconditions.
- Breadth-first search, Dijkstra, A*, path reconstruction and `'*'` path marking do not appear
  in `src/main.cpp`, so they are not modelled.
