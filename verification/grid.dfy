/** The grid model shared by the maze generator and the path solver: cells with
    four wall flags and two status flags, the coordinates and the four moves
    between neighbouring cells, and the rectangular grid that owns the cells. */
module MazeGrid {

  /** One maze cell. A wall flag is true while that wall stands; `visited`
      marks carving progress during generation and, after a reset, BFS
      discovery during solving; `onPath` marks membership of the solution. */
  datatype Cell = Cell(visited: bool, top: bool, bottom: bool, left: bool, right: bool, onPath: bool)

  /** What the cell constructor builds: every wall standing, both flags clear. */
  const FreshCell: Cell := Cell(false, true, true, true, true, false)

  /** A (row, column) pair; it may lie outside the grid, as the neighbour
      of a border cell does before the bounds test. */
  datatype Coord = Coord(row: int, col: int)

  /** The four moves, with the offsets the program lists them by:
      Down = (1, 0), Up = (-1, 0), Right = (0, 1), Left = (0, -1). */
  datatype Dir = Down | Up | Right | Left

  /** The direction list in the program's own order: down, up, right, left. */
  const Directions: seq<Dir> := [Down, Up, Right, Left]

  function RowOffset(d: Dir): int {
    match d
    case Down => 1
    case Up => -1
    case _ => 0
  }

  function ColOffset(d: Dir): int {
    match d
    case Right => 1
    case Left => -1
    case _ => 0
  }

  function Neighbor(c: Coord, d: Dir): Coord {
    Coord(c.row + RowOffset(d), c.col + ColOffset(d))
  }

  function Opposite(d: Dir): Dir {
    match d
    case Down => Up
    case Up => Down
    case Right => Left
    case Left => Right
  }

  /** The wall a cell has on side `d`. */
  function Wall(cell: Cell, d: Dir): bool {
    match d
    case Down => cell.bottom
    case Up => cell.top
    case Right => cell.right
    case Left => cell.left
  }

  /** The cell with its wall on side `d` knocked down. */
  function ClearWall(cell: Cell, d: Dir): (r: Cell)
    ensures forall e :: Wall(r, e) == (e != d && Wall(cell, e))
    ensures r.visited == cell.visited && r.onPath == cell.onPath
  {
    match d
    case Down => cell.(bottom := false)
    case Up => cell.(top := false)
    case Right => cell.(right := false)
    case Left => cell.(left := false)
  }

  predicate AllWalls(cell: Cell) {
    cell.top && cell.bottom && cell.left && cell.right
  }

  /** Two cells with the same four walls (the flags may differ). */
  predicate SameWalls(a: Cell, b: Cell) {
    a.top == b.top && a.bottom == b.bottom && a.left == b.left && a.right == b.right
  }

  /** A `rows` x `cols` grid stored row by row, as the program's vector of rows. */
  datatype Grid = Grid(rows: nat, cols: nat, cells: seq<seq<Cell>>)

  predicate WellFormed(g: Grid) {
    |g.cells| == g.rows && forall i :: 0 <= i < g.rows ==> |g.cells[i]| == g.cols
  }

  /** Whether `c` lies in a `rows` x `cols` rectangle anchored at (0, 0). */
  predicate Inside(rows: int, cols: int, c: Coord) {
    0 <= c.row < rows && 0 <= c.col < cols
  }

  predicate InBounds(g: Grid, c: Coord) {
    Inside(g.rows, g.cols, c)
  }

  function At(g: Grid, c: Coord): Cell
    requires WellFormed(g) && InBounds(g, c)
  {
    g.cells[c.row][c.col]
  }

  /** The grid with the cell at `c` replaced by `v`. */
  function Put(g: Grid, c: Coord, v: Cell): (r: Grid)
    requires WellFormed(g) && InBounds(g, c)
    ensures WellFormed(r) && r.rows == g.rows && r.cols == g.cols
    ensures forall x {:trigger At(r, x)} :: InBounds(g, x) ==> At(r, x) == if x == c then v else At(g, x)
  {
    Grid(g.rows, g.cols, g.cells[c.row := g.cells[c.row][c.col := v]])
  }

  /** Two well-formed grids of the same shape that agree on every cell are equal. */
  lemma Extensionality(g: Grid, h: Grid)
    requires WellFormed(g) && WellFormed(h) && g.rows == h.rows && g.cols == h.cols
    requires forall x {:trigger At(g, x)} :: InBounds(g, x) ==> At(g, x) == At(h, x)
    ensures g == h
  {
    forall i | 0 <= i < g.rows
      ensures g.cells[i] == h.cells[i]
    {
      forall j | 0 <= j < g.cols
        ensures g.cells[i][j] == h.cells[i][j]
      {
        assert At(g, Coord(i, j)) == At(h, Coord(i, j));
      }
    }
  }

  /** The grid the program allocates: `rows` x `cols` fresh cells. */
  function NewGrid(rows: nat, cols: nat): (g: Grid)
    ensures WellFormed(g) && g.rows == rows && g.cols == cols
    ensures forall x {:trigger At(g, x)} :: InBounds(g, x) ==> AllWalls(At(g, x)) && !At(g, x).visited && !At(g, x).onPath
  {
    Grid(rows, cols, seq(rows, i => seq(cols, j => FreshCell)))
  }

  /** The cells of a `rows` x `cols` rectangle. */
  function CellsOf(rows: nat, cols: nat): (s: set<Coord>)
    ensures forall x {:trigger x in s} :: x in s <==> Inside(rows, cols, x)
  {
    set i, j | 0 <= i < rows && 0 <= j < cols :: Coord(i, j)
  }

  function AllCells(g: Grid): (s: set<Coord>)
    ensures forall x {:trigger x in s} :: x in s <==> InBounds(g, x)
  {
    CellsOf(g.rows, g.cols)
  }

  function VisitedCells(g: Grid): (s: set<Coord>)
    requires WellFormed(g)
    ensures forall x {:trigger x in s} :: x in s <==> InBounds(g, x) && At(g, x).visited
  {
    set i, j | 0 <= i < g.rows && 0 <= j < g.cols && g.cells[i][j].visited :: Coord(i, j)
  }

  function UnvisitedCells(g: Grid): (s: set<Coord>)
    requires WellFormed(g)
    ensures forall x {:trigger x in s} :: x in s <==> InBounds(g, x) && !At(g, x).visited
  {
    set i, j | 0 <= i < g.rows && 0 <= j < g.cols && !g.cells[i][j].visited :: Coord(i, j)
  }

  ghost predicate AllUnvisited(g: Grid)
    requires WellFormed(g)
  {
    forall x {:trigger At(g, x)} :: InBounds(g, x) ==> !At(g, x).visited
  }

  /** The grid with the cell at `c` marked visited. */
  function MarkVisited(g: Grid, c: Coord): (r: Grid)
    requires WellFormed(g) && InBounds(g, c)
    ensures WellFormed(r) && r.rows == g.rows && r.cols == g.cols
    ensures forall x {:trigger At(r, x)} :: InBounds(g, x) ==> At(r, x) == if x == c then At(g, c).(visited := true) else At(g, x)
  {
    Put(g, c, At(g, c).(visited := true))
  }

  /** The reset loop the program runs before solving: it walks the grid row
      by row and clears every visited flag, leaving walls and path marks alone. */
  method ResetVisited(g: Grid) returns (r: Grid)
    requires WellFormed(g)
    ensures WellFormed(r) && r.rows == g.rows && r.cols == g.cols
    ensures forall x {:trigger At(r, x)} :: InBounds(g, x) ==> At(r, x) == At(g, x).(visited := false)
    ensures AllUnvisited(r)
    ensures AllUnvisited(g) ==> r == g
  {
    r := g;
    var i := 0;
    while i < g.rows
      invariant 0 <= i <= g.rows
      invariant WellFormed(r) && r.rows == g.rows && r.cols == g.cols
      invariant forall x {:trigger At(r, x)} :: InBounds(g, x) ==>
                  At(r, x) == if x.row < i then At(g, x).(visited := false) else At(g, x)
    {
      var j := 0;
      while j < g.cols
        invariant 0 <= j <= g.cols
        invariant WellFormed(r) && r.rows == g.rows && r.cols == g.cols
        invariant forall x {:trigger At(r, x)} :: InBounds(g, x) ==>
                    At(r, x) == if x.row < i || (x.row == i && x.col < j) then At(g, x).(visited := false) else At(g, x)
      {
        r := Put(r, Coord(i, j), At(r, Coord(i, j)).(visited := false));
        j := j + 1;
      }
      i := i + 1;
    }
    if AllUnvisited(g) {
      Extensionality(r, g);
    }
  }
}
