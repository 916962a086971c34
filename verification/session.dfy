/** The program's top level: building a new maze from the random draws, and
    the solve command of the key loop, which clears the visited flags the
    generator left behind and runs the breadth-first solver. */
module Session {
  import opened MazeGrid
  import opened Paths
  import opened Placement
  import opened Carving
  import opened Spanning
  import opened Solver

  /** A maze with its entry and exit cells. */
  datatype Maze = Maze(grid: Grid, entry: Coord, exit: Coord)

  /** Whether one of the exit draws selects a cell other than the entry. */
  predicate ExitAvailable(rows: int, cols: int, entryDraw: nat, exitDraws: seq<nat>)
    requires rows >= 1 && cols >= 1
  {
    exists i :: 0 <= i < |exitDraws| && Place(rows, cols, exitDraws[i]) != Place(rows, cols, entryDraw)
  }

  /** The initialisation, from the draws in the order the program takes
      them: one for the number of rows, one for the number of columns, one
      for the entry, the supply `exitDraws` for the exit loop, and the
      generator's shuffles `order`. The generator starts at the entry on a
      fresh grid. `None` when the supply of exit draws runs out on the entry. */
  function Initialize(rowDraw: nat, colDraw: nat, entryDraw: nat, exitDraws: seq<nat>,
                      order: Coord -> seq<Dir>): (m: Option<Maze>)
    ensures m.Some? <==> ExitAvailable(Dimension(rowDraw), Dimension(colDraw), entryDraw, exitDraws)
    ensures m.Some? ==>
              && WellFormed(m.value.grid)
              && m.value.grid.rows == Dimension(rowDraw) && m.value.grid.cols == Dimension(colDraw)
              && OnPerimeter(m.value.grid.rows, m.value.grid.cols, m.value.entry)
              && OnPerimeter(m.value.grid.rows, m.value.grid.cols, m.value.exit)
              && m.value.entry != m.value.exit
  {
    var rows := Dimension(rowDraw);
    var cols := Dimension(colDraw);
    var entry := Place(rows, cols, entryDraw);
    match PickExit(rows, cols, entry, exitDraws)
    case None => None
    case Some(exit) => Some(Maze(Carve(NewGrid(rows, cols), entry, order), entry, exit))
  }

  /** Every maze the initialisation builds is perfect, with every cell
      visited by the generator, so its exit is reachable from its entry. */
  lemma InitializePerfect(rowDraw: nat, colDraw: nat, entryDraw: nat, exitDraws: seq<nat>,
                          order: Coord -> seq<Dir>)
    requires ValidOrder(order)
    ensures var m := Initialize(rowDraw, colDraw, entryDraw, exitDraws, order);
            m.Some? ==> Perfect(m.value.grid) && Reachable(m.value.grid, m.value.entry, m.value.exit)
  {
    var m := Initialize(rowDraw, colDraw, entryDraw, exitDraws, order);
    if m.Some? {
      var rows := Dimension(rowDraw);
      var cols := Dimension(colDraw);
      SpanningTree(rows, cols, m.value.entry, order);
      assert InBounds(m.value.grid, m.value.entry) && InBounds(m.value.grid, m.value.exit);
    }
  }

  /** Two grids of the same shape with the same walls have the same paths. */
  lemma SameWallsSamePaths(g: Grid, h: Grid, p: seq<Coord>)
    requires WellFormed(g) && WellFormed(h) && g.rows == h.rows && g.cols == h.cols
    requires forall x {:trigger At(h, x)} :: InBounds(g, x) ==> SameWalls(At(h, x), At(g, x))
    ensures IsPath(g, p) <==> IsPath(h, p)
  {
    assert OpenStaysOpen(g, h) by {
      forall x, d | InBounds(g, x) && !Wall(At(g, x), d)
        ensures !Wall(At(h, x), d)
      {
        assert SameWalls(At(h, x), At(g, x));
      }
    }
    assert OpenStaysOpen(h, g) by {
      forall x, d | InBounds(h, x) && !Wall(At(h, x), d)
        ensures !Wall(At(g, x), d)
      {
        assert SameWalls(At(h, x), At(g, x));
      }
    }
    if IsPath(g, p) {
      PathStays(g, h, p);
    }
    if IsPath(h, p) {
      PathStays(h, g, p);
    }
  }

  /** After the reset, the solver's routes are exactly the paths of the
      maze: nothing is visited, and the walls are those of the maze. */
  lemma ResetRoutes(g: Grid, g0: Grid, p: seq<Coord>, a: Coord, b: Coord)
    requires WellFormed(g) && WellFormed(g0) && g.rows == g0.rows && g.cols == g0.cols
    requires forall x {:trigger At(g0, x)} :: InBounds(g, x) ==> SameWalls(At(g0, x), At(g, x))
    requires AllUnvisited(g0)
    ensures RouteFromTo(g0, p, a, b) <==> PathFromTo(g, p, a, b)
  {
    SameWallsSamePaths(g, g0, p);
    if IsPath(g0, p) {
      PathInBounds(g0, p);
      assert IsRoute(g0, p);
    }
  }

  lemma ResetAccessible(g: Grid, g0: Grid, a: Coord, b: Coord)
    requires WellFormed(g) && WellFormed(g0) && g.rows == g0.rows && g.cols == g0.cols
    requires forall x {:trigger At(g0, x)} :: InBounds(g, x) ==> SameWalls(At(g0, x), At(g, x))
    requires AllUnvisited(g0)
    ensures Accessible(g0, a, b) <==> Reachable(g, a, b)
  {
    AccessibleIffReachable(g0, a, b);
    if Reachable(g0, a, b) {
      var p :| PathFromTo(g0, p, a, b);
      SameWallsSamePaths(g, g0, p);
      assert PathFromTo(g, p, a, b);
    }
    if Reachable(g, a, b) {
      var p :| PathFromTo(g, p, a, b);
      SameWallsSamePaths(g, g0, p);
      assert PathFromTo(g0, p, a, b);
    }
  }

  /** The solve command: clear every visited flag, then run the solver from
      the entry. It finds the exit exactly when a path through open walls
      leads there, marks a shortest such path, keeps every wall, and leaves
      every cell marked visited reachable from the entry. */
  method SolveCommand(m: Maze) returns (found: bool, r: Grid, ghost route: seq<Coord>)
    requires WellFormed(m.grid) && InBounds(m.grid, m.entry) && InBounds(m.grid, m.exit)
    ensures WellFormed(r) && r.rows == m.grid.rows && r.cols == m.grid.cols
    ensures forall x {:trigger At(r, x)} :: InBounds(m.grid, x) ==> SameWalls(At(r, x), At(m.grid, x))
    ensures found <==> Reachable(m.grid, m.entry, m.exit)
    ensures found ==> PathFromTo(m.grid, route, m.entry, m.exit)
    ensures found ==> forall p :: PathFromTo(m.grid, p, m.entry, m.exit) ==> |route| <= |p|
    ensures forall x {:trigger At(r, x)} :: InBounds(m.grid, x) ==>
              At(r, x).onPath == (At(m.grid, x).onPath || (found && x in route))
    ensures forall x {:trigger At(r, x)} :: InBounds(m.grid, x) && At(r, x).visited ==>
              Reachable(m.grid, m.entry, x)
  {
    var g0 := ResetVisited(m.grid);
    found, r, route := Solve(g0, m.entry, m.exit);
    ResetAccessible(m.grid, g0, m.entry, m.exit);
    if found {
      ResetRoutes(m.grid, g0, route, m.entry, m.exit);
      forall p | PathFromTo(m.grid, p, m.entry, m.exit)
        ensures |route| <= |p|
      {
        ResetRoutes(m.grid, g0, p, m.entry, m.exit);
      }
    }
    forall x | InBounds(m.grid, x) && At(r, x).visited
      ensures Reachable(m.grid, m.entry, x)
    {
      assert !At(g0, x).visited;
      ResetAccessible(m.grid, g0, m.entry, x);
    }
  }

  /** A new game followed by the solve command: on every maze the
      initialisation builds, the solver finds the exit and marks a path
      from the entry to it. */
  method NewGameSolved(rowDraw: nat, colDraw: nat, entryDraw: nat, exitDraws: seq<nat>,
                       order: Coord -> seq<Dir>)
    returns (m: Option<Maze>, found: bool, r: Grid, ghost route: seq<Coord>)
    requires ValidOrder(order)
    ensures m == Initialize(rowDraw, colDraw, entryDraw, exitDraws, order)
    ensures m.Some? ==> found && PathFromTo(m.value.grid, route, m.value.entry, m.value.exit)
    ensures m.Some? ==> WellFormed(r) && r.rows == m.value.grid.rows && r.cols == m.value.grid.cols
    ensures m.Some? ==> forall x {:trigger At(r, x)} :: InBounds(m.value.grid, x) ==>
                          At(r, x).onPath == (x in route)
  {
    m := Initialize(rowDraw, colDraw, entryDraw, exitDraws, order);
    found, r, route := false, NewGrid(0, 0), [];
    if m.Some? {
      InitializePerfect(rowDraw, colDraw, entryDraw, exitDraws, order);
      CarvedLeavesNoMarks(Dimension(rowDraw), Dimension(colDraw), m.value.entry, order);
      found, r, route := SolveCommand(m.value);
    }
  }

  /** The generator never marks a cell as on the path. */
  lemma CarvedLeavesNoMarks(rows: nat, cols: nat, start: Coord, order: Coord -> seq<Dir>)
    requires InBounds(NewGrid(rows, cols), start)
    ensures forall x {:trigger At(Carve(NewGrid(rows, cols), start, order), x)} ::
              InBounds(NewGrid(rows, cols), x) ==> !At(Carve(NewGrid(rows, cols), start, order), x).onPath
  {
    var g := NewGrid(rows, cols);
    var r := Carve(g, start, order);
    forall x | InBounds(g, x)
      ensures !At(r, x).onPath
    {
      assert !At(g, x).onPath;
    }
  }
}
