# Maze generator and breadth-first solver, modelled in Dafny

The program builds a random rectangular maze and solves it. A maze is a
grid of cells. Each cell has four wall flags (top, bottom, left, right), a
`visited` flag and an `onPath` flag. Initialisation works in four steps:

- it draws the side lengths, each between 5 and 20;
- it places an entry on the border of the grid;
- it draws exit positions until one differs from the entry;
- it carves the maze with a randomised depth-first search started at the entry.

The search marks a cell visited, shuffles the four directions, and for each
in-bounds unvisited neighbour knocks down the shared wall on both sides and
recurses. The solve command first clears every visited flag. It then runs a
breadth-first search from the entry. The search moves only through the
current cell's own open walls, marks cells visited as it queues them, and
records each cell's predecessor. When it dequeues the exit, it walks the
predecessors back to the entry, marking each cell as on the path.

The model keeps every cell, wall, flag and branch of that code, stated as
pure values:

- A grid is a `Grid(rows, cols, cells)` value with cells stored row by row.
- The generator is a pair of mutually recursive functions. `Carving.Carve`
  is one call of the recursive procedure. `Carving.CarveFrom` is its loop
  over the shuffled directions that remain.
- The shuffle is a parameter `order: Coord -> seq<Dir>`. `order(c)` is the
  permutation drawn when the generator enters `c`. The generator enters
  each cell at most once, so every run of the program is covered by some
  such function. The properties are proved for every permutation.
- Every random draw is a natural-number parameter. The exit retry loop runs
  over a finite sequence of draws.
- The solver is a method with a `seq` queue, a predecessor `map`, and ghost
  layer and discovered-set bookkeeping. Its direction loop is `Solver.Expand`.
  The predecessor walk is `Solver.MarkRoute`.
- The global row count, column count, entry and exit are explicit parameters.

Modules and files:

- `grid.dfy` (`MazeGrid`): cells, directions, the grid and the reset loop.
- `paths.dfy` (`Paths`): moves through open walls, paths and reachability.
- `placement.dfy` (`Placement`): side lengths and the walk round the border.
- `carving.dfy` (`Carving`): the generator.
- `spanning.dfy` (`Spanning`): the proof that the generator builds a spanning tree.
- `solver.dfy` (`Solver`): the breadth-first solver.
- `session.dfy` (`Session`): initialisation and the solve command.

## Model

| member | source | states |
|---|---|---|
| MazeGrid.NewGrid | challenge_laberinto_cpp_codepro.cpp:27 | a fresh grid has the requested shape, every wall standing, and both flags clear in every cell |
| MazeGrid.ClearWall | challenge_laberinto_cpp_codepro.cpp:47-59 | knocking down one wall leaves the other three walls and both flags as they were |
| MazeGrid.ResetVisited | challenge_laberinto_cpp_codepro.cpp:246-250 | the reset loop clears every visited flag and changes nothing else; on a grid with nothing visited it changes nothing |
| Placement.Dimension | challenge_laberinto_cpp_codepro.cpp:197-198 | a side length lies between 5 and 20 and is 5 plus the draw modulo 16 |
| Placement.DimensionOnto | challenge_laberinto_cpp_codepro.cpp:197-198 | every side length from 5 to 20 comes from some draw |
| Placement.PerimeterCell | challenge_laberinto_cpp_codepro.cpp:203-211 | every position of the walk round the border gives an in-bounds cell on the outer ring |
| Placement.Place | challenge_laberinto_cpp_codepro.cpp:202-211 | any raw draw gives an in-bounds border cell, namely the cell at some position of the walk |
| Placement.PerimeterCellStart | challenge_laberinto_cpp_codepro.cpp:203-206 | position 0 is the top-left corner, and positions cols - 1 and cols both give the top-right corner (on 7 x 7, positions 6 and 7 both give (0, 6)) |
| Placement.PerimeterCellOnto | challenge_laberinto_cpp_codepro.cpp:203-211 | every border cell is selected by some position of the walk |
| Placement.PerimeterCellCollisions | challenge_laberinto_cpp_codepro.cpp:203-211 | two different positions select the same cell only at a corner |
| Placement.CornersTwice | challenge_laberinto_cpp_codepro.cpp:203-211 | each corner is selected by two different positions |
| Placement.PickExit | challenge_laberinto_cpp_codepro.cpp:214-225 | the exit loop succeeds exactly when some draw selects a cell other than the entry; the exit is then a border cell different from the entry, selected by the first such draw |
| Carving.ShuffleCovers | challenge_laberinto_cpp_codepro.cpp:36-37 | a shuffle of the four directions contains each of them |
| Carving.KnockDown | challenge_laberinto_cpp_codepro.cpp:47-59 | the chain of offset tests clears the current cell's wall facing the move and the neighbour's wall facing back |
| Carving.OpenWall | challenge_laberinto_cpp_codepro.cpp:47-59 | knocking down a shared wall changes the two cells on either side of it and no other cell |
| Carving.OpenWallFrame | challenge_laberinto_cpp_codepro.cpp:45-59 | knocking down a wall towards an unvisited neighbour only opens walls, opens only walls between cells new to the step, and leaves the unvisited cells as they were |
| Carving.Carve | challenge_laberinto_cpp_codepro.cpp:33-65 | one call of the generator marks its cell visited, only opens walls, never clears a visited flag, opens only walls between cells that were unvisited or the start, and strictly shrinks the set of unvisited cells (its termination measure) |
| Carving.CarveFrom | challenge_laberinto_cpp_codepro.cpp:40-64 | the direction loop only opens walls, never clears a visited flag, opens only walls between new cells, and never grows the set of unvisited cells |
| Carving.CarveFromVisits | challenge_laberinto_cpp_codepro.cpp:40-64 | after the direction loop, every in-bounds neighbour in one of the tried directions is visited |
| Spanning.OpenWallSymmetric | challenge_laberinto_cpp_codepro.cpp:47-59 | knocking down a wall on both sides keeps wall symmetry: a cell's wall facing its neighbour stands exactly when the neighbour's wall facing back stands |
| Spanning.CarveSymmetric | challenge_laberinto_cpp_codepro.cpp:33-65 | the generator, started on any symmetric grid, leaves the walls symmetric |
| Spanning.CarveFromSymmetric | challenge_laberinto_cpp_codepro.cpp:40-64 | the direction loop keeps the walls symmetric |
| Spanning.OpenWallEdges | challenge_laberinto_cpp_codepro.cpp:47-59 | knocking down the wall towards a neighbour whose walls all stand adds exactly that one edge to the open edges of the grid graph |
| Spanning.LoopCoversNeighbors | challenge_laberinto_cpp_codepro.cpp:40-64 | after the loop over a cell's shuffle, every in-bounds neighbour of that cell is visited |
| Spanning.CarveSpans | challenge_laberinto_cpp_codepro.cpp:33-65 | on a symmetric grid whose unvisited cells other than the start are sealed, the generator keeps symmetry, leaves no unvisited cell unsealed, adds one open edge per newly visited cell other than the start, and every newly visited cell is reachable from the start with all its neighbours visited |
| Spanning.CarveFromSpans | challenge_laberinto_cpp_codepro.cpp:40-64 | the same for the direction loop: one open edge per newly visited cell, and every newly visited cell is reachable from the current cell |
| Spanning.SpanningTree | challenge_laberinto_cpp_codepro.cpp:33-65 | on a fresh grid, from any in-bounds start and for every choice of shuffles, the generator leaves every cell visited, the walls symmetric, every cell reachable from every other, and exactly rows * cols - 1 open walls: a spanning tree of the grid |
| Spanning.Generate | challenge_laberinto_cpp_codepro.cpp:33-65 | the generator run on a fresh grid returns, for every choice of shuffles, a grid of the requested shape that is a perfect maze |
| Spanning.PerfectFromSpans | challenge_laberinto_cpp_codepro.cpp:33-65 | closure under neighbours plus one open wall fewer than visited cells gives a perfect maze |
| Solver.Passable | challenge_laberinto_cpp_codepro.cpp:135-144 | the solver's chain of offset and wall tests allows a move exactly when the current cell's own wall on that side is down |
| Solver.AccessibleIffReachable | challenge_laberinto_cpp_codepro.cpp:134 | a route the solver can take (never entering an already visited cell) is a path; on a grid with nothing visited, the routes are exactly the paths |
| Solver.Visit | challenge_laberinto_cpp_codepro.cpp:147-150 | discovering a neighbour marks it visited, appends it to the queue and records the current cell as its predecessor, keeping all the search invariants, with the neighbour one layer beyond the current cell |
| Solver.TryDirection | challenge_laberinto_cpp_codepro.cpp:129-152 | one pass of the direction loop keeps the search invariants, either leaves the queue as it was or appends that direction's neighbour, and discovers the neighbour when the move is open and the neighbour is new |
| Solver.Expand | challenge_laberinto_cpp_codepro.cpp:129-153 | after the direction loop every open move from the current cell into a cell unvisited at the start ends on a discovered cell, and the queue grows by at most four cells, all one layer further out |
| Solver.FrontierBound | challenge_laberinto_cpp_codepro.cpp:111-113 | in breadth-first order, every route from the entry to a cell not yet discovered takes more moves than the layer of the cell at the queue's front |
| Solver.RouteBack | challenge_laberinto_cpp_codepro.cpp:118-122 | each predecessor step extends the retraced route by one cell, one layer closer to the entry |
| Solver.MarkRoute | challenge_laberinto_cpp_codepro.cpp:116-125 | the predecessor walk terminates, marks exactly the cells of a route from the entry to the exit, entry included, and that route has as many moves as the exit's layer |
| Solver.Solve | challenge_laberinto_cpp_codepro.cpp:102-157 | the solver never changes a wall; it finds the exit exactly when a route leads there; the marked route starts at the entry, ends at the exit, and is no longer than any other route; on failure no path mark changes; every cell it marks visited was visited before or is reachable by a route, and on failure every reachable cell ends up visited |
| Session.Initialize | challenge_laberinto_cpp_codepro.cpp:196-228 | initialisation succeeds exactly when some exit draw selects a cell other than the entry; the maze then has the drawn shape, and its entry and exit are distinct border cells |
| Session.InitializePerfect | challenge_laberinto_cpp_codepro.cpp:196-228 | every maze the initialisation builds is a perfect maze in which the exit is reachable from the entry |
| Session.ResetRoutes | challenge_laberinto_cpp_codepro.cpp:246-251 | after the reset, the solver's routes are exactly the maze's paths |
| Session.ResetAccessible | challenge_laberinto_cpp_codepro.cpp:246-251 | after the reset, the solver can reach a cell exactly when a path through open walls leads there |
| Session.SolveCommand | challenge_laberinto_cpp_codepro.cpp:244-251 | reset then solve: the result is true exactly when the exit is reachable through open walls; on true the marked cells form a shortest path from entry to exit; no wall changes; every visited cell is reachable from the entry |
| Session.NewGameSolved | challenge_laberinto_cpp_codepro.cpp:241-251 | on every maze the initialisation builds, the solve command succeeds and marks exactly the cells of a path from the entry to the exit |
| Session.CarvedLeavesNoMarks | challenge_laberinto_cpp_codepro.cpp:33-65 | the generator never sets a path mark |

The walk takes the right-hand column from row 0 (`posicion - columnas`,
line 206), so positions cols - 1 and cols both give (0, cols - 1); on a
7 x 7 grid, positions 6 and 7 both give (0, 6).
`Placement.PerimeterCellStart` proves it. As a consequence,
each corner is selected by two positions of the walk and every other border
cell by one (`Placement.CornersTwice`, `Placement.PerimeterCellCollisions`).

## Left out

- The console drawing of the maze and of the solved maze: output formatting only.
- The keypress loop of `main` (polling, Esc, Enter) is not modelled. `Session.NewGameSolved` composes a new game (Enter) with the solve command ('1').
- The random number generator and `std::shuffle`: each draw is a parameter, and the shuffle is any permutation of the four directions. Uniformity and bias are not modelled.
- Session.Initialize: the exit retry loop runs over a finite sequence of draws and returns `None` when they all land on the entry. The program's loop over an unbounded generator is not modelled. Its termination depends on the generator.
- The global row count, column count, entry and exit are parameters and fields, not shared mutable state.
- The unsigned 32-bit generator output and the `int` arithmetic never overflow at these sizes (at most 20 x 20), so plain integers are used.
- The recursion depth of the generator, which can reach rows * cols calls, is not modelled.
- In-place updates of the program's nested vectors become updates of immutable grid values.
- The solver's predecessor table is a map holding only discovered cells; the program's default entries (-1, -1) for other cells are never read.
