/** What the generator leaves behind when it starts from a freshly allocated
    grid: every cell visited, walls still symmetric, every cell reachable from
    every other, and exactly rows * cols - 1 open walls, i.e. a spanning tree
    of the grid graph. */
module Spanning {
  import opened MazeGrid
  import opened Paths
  import opened Carving

  /** Every unvisited cell still has all four walls. */
  ghost predicate Sealed(g: Grid)
    requires WellFormed(g)
  {
    forall x {:trigger At(g, x)} :: InBounds(g, x) && !At(g, x).visited ==> AllWalls(At(g, x))
  }

  /** Sealed, except perhaps for the cell `c` the generator is about to enter. */
  ghost predicate SealedExcept(g: Grid, c: Coord)
    requires WellFormed(g)
  {
    forall x {:trigger At(g, x)} :: InBounds(g, x) && !At(g, x).visited && x != c ==> AllWalls(At(g, x))
  }

  /** Two grids of the same shape with the same visited flags. */
  ghost predicate SameVisited(g: Grid, h: Grid)
    requires WellFormed(g) && WellFormed(h) && g.rows == h.rows && g.cols == h.cols
  {
    forall x {:trigger At(h, x)} :: InBounds(g, x) ==> At(h, x).visited == At(g, x).visited
  }

  ghost predicate NeighborsVisited(g: Grid, x: Coord)
    requires WellFormed(g)
  {
    forall d :: InBounds(g, Neighbor(x, d)) ==> At(g, Neighbor(x, d)).visited
  }

  /** The cells visited in `r` but not in `g` are reachable from `c` in `r`
      and have all their in-bounds neighbours visited in `r`. */
  ghost predicate Spans(g: Grid, r: Grid, c: Coord)
    requires WellFormed(g) && WellFormed(r) && g.rows == r.rows && g.cols == r.cols
  {
    forall x {:trigger At(r, x)} :: InBounds(g, x) && At(r, x).visited && !At(g, x).visited ==>
      Reachable(r, c, x) && NeighborsVisited(r, x)
  }

  /** An open wall between two in-bounds cells, named by its upper or left
      cell, so that each wall of the grid graph has exactly one name. */
  datatype Edge = Edge(cell: Coord, dir: Dir)

  predicate IsOpenEdge(g: Grid, e: Edge)
    requires WellFormed(g)
  {
    (e.dir == Down || e.dir == Right) && CanMove(g, e.cell, e.dir)
  }

  function OpenEdges(g: Grid): (s: set<Edge>)
    requires WellFormed(g)
    ensures forall e :: e in s <==> IsOpenEdge(g, e)
  {
    set i, j, d | 0 <= i < g.rows && 0 <= j < g.cols && d in {Down, Right} &&
                  InBounds(g, Neighbor(Coord(i, j), d)) && !Wall(g.cells[i][j], d) :: Edge(Coord(i, j), d)
  }

  /** The name of the wall between `c` and its neighbour in direction `d`. */
  function EdgeOf(c: Coord, d: Dir): Edge {
    match d
    case Down => Edge(c, Down)
    case Right => Edge(c, Right)
    case Up => Edge(Neighbor(c, Up), Down)
    case Left => Edge(Neighbor(c, Left), Right)
  }

  lemma OppositeTwice(d: Dir)
    ensures Opposite(Opposite(d)) == d
  {
  }

  /** Marking the cell the generator enters changes no wall. */
  lemma MarkEffects(g: Grid, c: Coord)
    requires WellFormed(g) && InBounds(g, c) && !At(g, c).visited
    requires Symmetric(g) && SealedExcept(g, c)
    ensures Symmetric(MarkVisited(g, c)) && Sealed(MarkVisited(g, c))
    ensures OpenEdges(MarkVisited(g, c)) == OpenEdges(g)
    ensures VisitedCells(MarkVisited(g, c)) == VisitedCells(g) + {c}
    ensures c !in VisitedCells(g)
  {
    MarkSymmetric(g, c);
  }

  /** Only the two faces of the opened wall change. */
  lemma OpenWallChanges(g: Grid, c: Coord, d: Dir, x: Coord, e: Dir)
    requires WellFormed(g) && InBounds(g, c) && InBounds(g, Neighbor(c, d)) && InBounds(g, x)
    ensures Wall(At(OpenWall(g, c, d), x), e) ==
            if (x == c && e == d) || (x == Neighbor(c, d) && e == Opposite(d)) then false else Wall(At(g, x), e)
  {
  }

  /** Opening a wall keeps the grid wall-symmetric. */
  lemma OpenWallSymmetric(g: Grid, c: Coord, d: Dir)
    requires WellFormed(g) && InBounds(g, c) && InBounds(g, Neighbor(c, d))
    requires Symmetric(g)
    ensures Symmetric(OpenWall(g, c, d))
  {
    var g0 := OpenWall(g, c, d);
    var n := Neighbor(c, d);
    NeighborBack(c, d);
    OppositeTwice(d);
    forall x, e | InBounds(g, x) && InBounds(g, Neighbor(x, e))
      ensures Wall(At(g0, x), e) == Wall(At(g0, Neighbor(x, e)), Opposite(e))
    {
      var y := Neighbor(x, e);
      NeighborBack(x, e);
      OppositeTwice(e);
      OpenWallChanges(g, c, d, x, e);
      OpenWallChanges(g, c, d, y, Opposite(e));
      if !(x == c && e == d) && !(x == n && e == Opposite(d)) {
        assert !(y == c && Opposite(e) == d);
        assert !(y == n && Opposite(e) == Opposite(d));
      }
    }
  }

  /** Marking a cell visited touches no wall, so it keeps the walls symmetric. */
  lemma MarkSymmetric(g: Grid, c: Coord)
    requires WellFormed(g) && InBounds(g, c) && Symmetric(g)
    ensures forall x, d {:trigger Wall(At(MarkVisited(g, c), x), d)} :: InBounds(g, x) ==>
              Wall(At(MarkVisited(g, c), x), d) == Wall(At(g, x), d)
    ensures Symmetric(MarkVisited(g, c))
  {
    var g1 := MarkVisited(g, c);
    forall x, d | InBounds(g, x)
      ensures Wall(At(g1, x), d) == Wall(At(g, x), d)
    {
    }
  }

  /** The generator keeps the walls symmetric: started on any grid whose
      walls agree on both sides, it leaves a grid whose walls still agree,
      since every wall it knocks down it knocks down on both sides. */
  lemma {:induction false} CarveSymmetric(g: Grid, c: Coord, order: Coord -> seq<Dir>)
    requires WellFormed(g) && InBounds(g, c) && !At(g, c).visited && Symmetric(g)
    ensures Symmetric(Carve(g, c, order))
    decreases |UnvisitedCells(g)|, 0
  {
    MarkSymmetric(g, c);
    MarkVisitedFrame(g, c);
    assert c in UnvisitedCells(g);
    CarveFromSymmetric(MarkVisited(g, c), c, order(c), order);
  }

  lemma {:induction false} CarveFromSymmetric(g: Grid, c: Coord, ds: seq<Dir>, order: Coord -> seq<Dir>)
    requires WellFormed(g) && InBounds(g, c) && Symmetric(g)
    ensures Symmetric(CarveFrom(g, c, ds, order))
    decreases |UnvisitedCells(g)|, |ds|
  {
    if ds != [] {
      var n := Neighbor(c, ds[0]);
      if InBounds(g, n) && !At(g, n).visited {
        var g0 := OpenWall(g, c, ds[0]);
        OpenWallSymmetric(g, c, ds[0]);
        OpenWallFrame(g, c, ds[0]);
        CarveSymmetric(g0, n, order);
        CarveFromSymmetric(Carve(g0, n, order), c, ds[1..], order);
      } else {
        CarveFromSymmetric(g, c, ds[1..], order);
      }
    }
  }

  /** The wall between `c` and a neighbour with all four walls is closed. */
  lemma EdgeOfClosed(g: Grid, c: Coord, d: Dir)
    requires WellFormed(g) && InBounds(g, c) && InBounds(g, Neighbor(c, d))
    requires AllWalls(At(g, Neighbor(c, d))) && Symmetric(g)
    ensures EdgeOf(c, d) !in OpenEdges(g)
  {
    NeighborBack(c, d);
    OppositeTwice(d);
    assert Wall(At(g, c), d) == Wall(At(g, Neighbor(c, d)), Opposite(d));
  }

  lemma OpenWallEdgesBelow(g: Grid, c: Coord, d: Dir)
    requires WellFormed(g) && InBounds(g, c) && InBounds(g, Neighbor(c, d))
    ensures OpenEdges(OpenWall(g, c, d)) <= OpenEdges(g) + {EdgeOf(c, d)}
  {
    forall e | e in OpenEdges(OpenWall(g, c, d))
      ensures e in OpenEdges(g) || e == EdgeOf(c, d)
    {
      OpenWallChanges(g, c, d, e.cell, e.dir);
    }
  }

  lemma OpenWallEdgesAbove(g: Grid, c: Coord, d: Dir)
    requires WellFormed(g) && InBounds(g, c) && InBounds(g, Neighbor(c, d))
    ensures OpenEdges(g) + {EdgeOf(c, d)} <= OpenEdges(OpenWall(g, c, d))
  {
    forall e | e in OpenEdges(g) + {EdgeOf(c, d)}
      ensures e in OpenEdges(OpenWall(g, c, d))
    {
      OpenWallChanges(g, c, d, e.cell, e.dir);
    }
  }

  /** Opening the wall from a cell to a sealed neighbour adds exactly one
      open wall to the count. */
  lemma OpenWallEdges(g: Grid, c: Coord, d: Dir)
    requires WellFormed(g) && InBounds(g, c) && InBounds(g, Neighbor(c, d))
    requires AllWalls(At(g, Neighbor(c, d))) && Symmetric(g)
    ensures OpenEdges(OpenWall(g, c, d)) == OpenEdges(g) + {EdgeOf(c, d)}
    ensures |OpenEdges(OpenWall(g, c, d))| == |OpenEdges(g)| + 1
  {
    EdgeOfClosed(g, c, d);
    OpenWallEdgesBelow(g, c, d);
    OpenWallEdgesAbove(g, c, d);
  }

  lemma OpenWallSealed(g: Grid, c: Coord, d: Dir)
    requires WellFormed(g) && InBounds(g, c) && InBounds(g, Neighbor(c, d))
    requires At(g, c).visited && Sealed(g)
    ensures SealedExcept(OpenWall(g, c, d), Neighbor(c, d))
    ensures VisitedCells(OpenWall(g, c, d)) == VisitedCells(g)
    ensures SameVisited(g, OpenWall(g, c, d))
  {
    var g0 := OpenWall(g, c, d);
    forall x | InBounds(g, x) && !At(g0, x).visited && x != Neighbor(c, d)
      ensures AllWalls(At(g0, x))
    {
      assert x != c;
    }
    forall x | InBounds(g, x)
      ensures At(g0, x).visited == At(g, x).visited
    {
    }
  }

  /** Opening the wall from a visited cell towards an unvisited neighbour
      keeps symmetry, leaves every unvisited cell but the neighbour sealed,
      lets the carver step across, and adds one open wall. */
  lemma OpenWallEffects(g: Grid, c: Coord, d: Dir)
    requires WellFormed(g) && InBounds(g, c) && InBounds(g, Neighbor(c, d))
    requires At(g, c).visited && !At(g, Neighbor(c, d)).visited
    requires Symmetric(g) && Sealed(g)
    ensures Symmetric(OpenWall(g, c, d))
    ensures SealedExcept(OpenWall(g, c, d), Neighbor(c, d))
    ensures CanMove(OpenWall(g, c, d), c, d)
    ensures |OpenEdges(OpenWall(g, c, d))| == |OpenEdges(g)| + 1
    ensures VisitedCells(OpenWall(g, c, d)) == VisitedCells(g)
    ensures SameVisited(g, OpenWall(g, c, d))
  {
    OpenWallSymmetric(g, c, d);
    OpenWallEdges(g, c, d);
    OpenWallChanges(g, c, d, c, d);
    OpenWallSealed(g, c, d);
  }

  lemma GrowsKeepsNeighborsVisited(g: Grid, h: Grid, x: Coord)
    requires WellFormed(g) && WellFormed(h) && Grows(g, h) && NeighborsVisited(g, x)
    ensures NeighborsVisited(h, x)
  {
  }

  /** The cell the generator enters joins the new cells of its loop. */
  lemma SpansMark(g: Grid, g1: Grid, r: Grid, c: Coord)
    requires WellFormed(g) && WellFormed(g1) && WellFormed(r)
    requires g.rows == g1.rows == r.rows && g.cols == g1.cols == r.cols && InBounds(g, c)
    requires forall x {:trigger At(g1, x)} :: InBounds(g, x) ==> (At(g1, x).visited <==> At(g, x).visited || x == c)
    requires Spans(g1, r, c) && NeighborsVisited(r, c) && At(r, c).visited
    ensures Spans(g, r, c)
  {
    forall x | InBounds(g, x) && At(r, x).visited && !At(g, x).visited
      ensures Reachable(r, c, x) && NeighborsVisited(r, x)
    {
      if x == c {
        ReachableSelf(r, c);
      }
    }
  }

  /** The cells reached by a recursive call into `n`, entered through the
      open wall from `c`, are reachable from `c`. */
  lemma SpansCompose(g: Grid, g1: Grid, r: Grid, c: Coord, n: Coord)
    requires WellFormed(g) && WellFormed(g1) && WellFormed(r)
    requires g.rows == g1.rows == r.rows && g.cols == g1.cols == r.cols && InBounds(g, c)
    requires Grows(g1, r) && Step(g1, c, n)
    requires Spans(g, g1, n) && Spans(g1, r, c)
    ensures Spans(g, r, c)
  {
    forall x | InBounds(g, x) && At(r, x).visited && !At(g, x).visited
      ensures Reachable(r, c, x) && NeighborsVisited(r, x)
    {
      if At(g1, x).visited {
        ReachableStep(g1, c, n, x);
        ReachableStays(g1, r, c, x);
        GrowsKeepsNeighborsVisited(g1, r, x);
      }
    }
  }

  /** The generator's loop from `c` over `c`'s shuffle leaves every
      in-bounds neighbour of `c` visited. */
  lemma LoopCoversNeighbors(g: Grid, c: Coord, order: Coord -> seq<Dir>)
    requires WellFormed(g) && InBounds(g, c) && ValidOrder(order)
    ensures NeighborsVisited(CarveFrom(g, c, order(c), order), c)
  {
    forall d | InBounds(g, Neighbor(c, d))
      ensures At(CarveFrom(g, c, order(c), order), Neighbor(c, d)).visited
    {
      ShuffleCovers(order(c), d);
      CarveFromVisits(g, c, order(c), order, d);
    }
  }

  /** One generator call on the cell `c` it enters, by induction together with
      `CarveFromSpans`. */
  lemma {:induction false} CarveSpans(g: Grid, c: Coord, order: Coord -> seq<Dir>)
    requires WellFormed(g) && InBounds(g, c) && !At(g, c).visited && ValidOrder(order)
    requires Symmetric(g) && SealedExcept(g, c)
    ensures Symmetric(Carve(g, c, order)) && Sealed(Carve(g, c, order))
    ensures |OpenEdges(Carve(g, c, order))| + |VisitedCells(g)| + 1 ==
            |OpenEdges(g)| + |VisitedCells(Carve(g, c, order))|
    ensures Spans(g, Carve(g, c, order), c)
    decreases |UnvisitedCells(g)|, 0
  {
    var g1 := MarkVisited(g, c);
    MarkEffects(g, c);
    MarkVisitedFrame(g, c);
    assert c in UnvisitedCells(g);
    CarveFromSpans(g1, c, order(c), order);
    var r := CarveFrom(g1, c, order(c), order);
    assert r == Carve(g, c, order);
    LoopCoversNeighbors(g1, c, order);
    SpansMark(g, g1, r, c);
  }

  lemma SpansSameVisited(g: Grid, g0: Grid, r: Grid, c: Coord)
    requires WellFormed(g) && WellFormed(g0) && WellFormed(r)
    requires g.rows == g0.rows == r.rows && g.cols == g0.cols == r.cols
    requires SameVisited(g, g0) && Spans(g0, r, c)
    ensures Spans(g, r, c)
  {
    forall x | InBounds(g, x) && At(r, x).visited && !At(g, x).visited
      ensures Reachable(r, c, x) && NeighborsVisited(r, x)
    {
      assert !At(g0, x).visited;
    }
  }

  /** One carved direction of the loop: open the wall from `c` towards `d`
      (giving `g0`), recurse into the neighbour (giving `g1`), then finish the
      remaining directions (giving `r`). The invariants of the three stages
      compose into those of the whole step. */
  lemma CarveStepSpans(g: Grid, g0: Grid, g1: Grid, r: Grid, c: Coord, d: Dir)
    requires WellFormed(g) && WellFormed(g0) && WellFormed(g1) && WellFormed(r)
    requires g.rows == g0.rows == g1.rows == r.rows && g.cols == g0.cols == g1.cols == r.cols
    requires InBounds(g, c) && InBounds(g, Neighbor(c, d))
    requires CanMove(g0, c, d) && Grows(g0, g1) && Grows(g1, r)
    requires |OpenEdges(g0)| == |OpenEdges(g)| + 1 && VisitedCells(g0) == VisitedCells(g)
    requires SameVisited(g, g0)
    requires |OpenEdges(g1)| + |VisitedCells(g0)| + 1 == |OpenEdges(g0)| + |VisitedCells(g1)|
    requires |OpenEdges(r)| + |VisitedCells(g1)| == |OpenEdges(g1)| + |VisitedCells(r)|
    requires Spans(g0, g1, Neighbor(c, d)) && Spans(g1, r, c)
    ensures |OpenEdges(r)| + |VisitedCells(g)| == |OpenEdges(g)| + |VisitedCells(r)|
    ensures Spans(g, r, c)
  {
    var n := Neighbor(c, d);
    assert Step(g1, c, n) by {
      assert CanMove(g1, c, d);
    }
    SpansSameVisited(g, g0, g1, n);
    SpansCompose(g, g1, r, c, n);
  }

  /** The generator's direction loop from the visited cell `c`. */
  lemma {:induction false} CarveFromSpans(g: Grid, c: Coord, ds: seq<Dir>, order: Coord -> seq<Dir>)
    requires WellFormed(g) && InBounds(g, c) && At(g, c).visited && ValidOrder(order)
    requires Symmetric(g) && Sealed(g)
    ensures Symmetric(CarveFrom(g, c, ds, order)) && Sealed(CarveFrom(g, c, ds, order))
    ensures |OpenEdges(CarveFrom(g, c, ds, order))| + |VisitedCells(g)| ==
            |OpenEdges(g)| + |VisitedCells(CarveFrom(g, c, ds, order))|
    ensures Spans(g, CarveFrom(g, c, ds, order), c)
    decreases |UnvisitedCells(g)|, |ds|
  {
    if ds != [] {
      var d := ds[0];
      var n := Neighbor(c, d);
      if InBounds(g, n) && !At(g, n).visited {
        var g0 := OpenWall(g, c, d);
        OpenWallEffects(g, c, d);
        OpenWallFrame(g, c, d);
        CarveSpans(g0, n, order);
        var g1 := Carve(g0, n, order);
        CarveFromSpans(g1, c, ds[1..], order);
        var r := CarveFrom(g1, c, ds[1..], order);
        assert r == CarveFrom(g, c, ds, order);
        CarveStepSpans(g, g0, g1, r, c, d);
      } else {
        CarveFromSpans(g, c, ds[1..], order);
      }
    }
  }

  /** A freshly allocated grid is ready for the generator: symmetric, sealed,
      nothing visited and no wall open. */
  lemma NewGridReady(rows: nat, cols: nat)
    ensures Symmetric(NewGrid(rows, cols)) && Sealed(NewGrid(rows, cols))
    ensures OpenEdges(NewGrid(rows, cols)) == {}
    ensures VisitedCells(NewGrid(rows, cols)) == {}
  {
    var g := NewGrid(rows, cols);
    forall x, d | InBounds(g, x)
      ensures Wall(At(g, x), d)
    {
      assert AllWalls(At(g, x));
    }
    forall e
      ensures !IsOpenEdge(g, e)
    {
      if InBounds(g, e.cell) {
        assert Wall(At(g, e.cell), e.dir);
      }
    }
  }

  /** Visited cells spread down or up a column when every visited cell has
      all its neighbours visited. */
  lemma {:induction false} SpreadColumn(g: Grid, x: Coord, i: int)
    requires WellFormed(g) && InBounds(g, x) && At(g, x).visited
    requires forall y {:trigger At(g, y)} :: InBounds(g, y) && At(g, y).visited ==> NeighborsVisited(g, y)
    requires 0 <= i < g.rows
    ensures At(g, Coord(i, x.col)).visited
    decreases if i < x.row then x.row - i else i - x.row
  {
    if i < x.row {
      assert NeighborsVisited(g, x);
      assert Neighbor(x, Up) == Coord(x.row - 1, x.col);
      SpreadColumn(g, Coord(x.row - 1, x.col), i);
    } else if i > x.row {
      assert NeighborsVisited(g, x);
      assert Neighbor(x, Down) == Coord(x.row + 1, x.col);
      SpreadColumn(g, Coord(x.row + 1, x.col), i);
    }
  }

  lemma {:induction false} SpreadRow(g: Grid, x: Coord, j: int)
    requires WellFormed(g) && InBounds(g, x) && At(g, x).visited
    requires forall y {:trigger At(g, y)} :: InBounds(g, y) && At(g, y).visited ==> NeighborsVisited(g, y)
    requires 0 <= j < g.cols
    ensures At(g, Coord(x.row, j)).visited
    decreases if j < x.col then x.col - j else j - x.col
  {
    if j < x.col {
      assert NeighborsVisited(g, x);
      assert Neighbor(x, Left) == Coord(x.row, x.col - 1);
      SpreadRow(g, Coord(x.row, x.col - 1), j);
    } else if j > x.col {
      assert NeighborsVisited(g, x);
      assert Neighbor(x, Right) == Coord(x.row, x.col + 1);
      SpreadRow(g, Coord(x.row, x.col + 1), j);
    }
  }

  /** The grid graph is connected: a visited set closed under neighbours
      that holds one cell holds them all. */
  lemma AllReached(g: Grid, s: Coord)
    requires WellFormed(g) && InBounds(g, s) && At(g, s).visited
    requires forall y {:trigger At(g, y)} :: InBounds(g, y) && At(g, y).visited ==> NeighborsVisited(g, y)
    ensures forall x {:trigger At(g, x)} :: InBounds(g, x) ==> At(g, x).visited
  {
    forall x | InBounds(g, x)
      ensures At(g, x).visited
    {
      SpreadColumn(g, s, x.row);
      SpreadRow(g, Coord(x.row, s.col), x.col);
    }
  }

  function RowCells(i: int, cols: nat): set<Coord> {
    set j | 0 <= j < cols :: Coord(i, j)
  }

  lemma {:induction false} RowCellsCard(i: int, cols: nat)
    ensures |RowCells(i, cols)| == cols
  {
    if cols > 0 {
      RowCellsCard(i, cols - 1);
      assert RowCells(i, cols) == RowCells(i, cols - 1) + {Coord(i, cols - 1)};
    }
  }

  lemma {:induction false} CellsOfCard(rows: nat, cols: nat)
    ensures |CellsOf(rows, cols)| == rows * cols
  {
    if rows > 0 {
      CellsOfCard(rows - 1, cols);
      CellsOfSplit(rows, cols);
      assert rows * cols == (rows - 1) * cols + cols;
    }
  }

  /** The last row of a rectangle adds `cols` cells to the rows above them. */
  lemma CellsOfSplit(rows: nat, cols: nat)
    requires rows > 0
    ensures |CellsOf(rows, cols)| == |CellsOf(rows - 1, cols)| + cols
  {
    RowCellsCard(rows - 1, cols);
    assert CellsOf(rows, cols) == CellsOf(rows - 1, cols) + RowCells(rows - 1, cols);
    assert CellsOf(rows - 1, cols) * RowCells(rows - 1, cols) == {};
  }

  /** A grid has rows * cols cells. */
  lemma AllCellsCard(g: Grid)
    ensures |AllCells(g)| == g.rows * g.cols
  {
    CellsOfCard(g.rows, g.cols);
  }

  /** Growing a grid with nothing visited: every visited cell of the result
      is reachable from the start and has all its neighbours visited. */
  lemma SpansFromFresh(g: Grid, r: Grid, start: Coord)
    requires WellFormed(g) && WellFormed(r) && g.rows == r.rows && g.cols == r.cols
    requires AllUnvisited(g) && Spans(g, r, start)
    ensures forall y {:trigger At(r, y)} :: InBounds(r, y) && At(r, y).visited ==>
              NeighborsVisited(r, y) && Reachable(r, start, y)
  {
    forall y | InBounds(r, y) && At(r, y).visited
      ensures NeighborsVisited(r, y) && Reachable(r, start, y)
    {
      assert !At(g, y).visited;
    }
  }

  /** A symmetric grid in which one cell reaches every cell is connected. */
  lemma ConnectedFromOne(g: Grid, s: Coord)
    requires WellFormed(g) && Symmetric(g)
    requires forall x {:trigger Reachable(g, s, x)} :: InBounds(g, x) ==> Reachable(g, s, x)
    ensures forall a, b {:trigger Reachable(g, a, b)} :: InBounds(g, a) && InBounds(g, b) ==> Reachable(g, a, b)
  {
    forall a, b | InBounds(g, a) && InBounds(g, b)
      ensures Reachable(g, a, b)
    {
      ReachableBack(g, s, a);
      ReachableTrans(g, a, s, b);
    }
  }

  /** A perfect maze: every cell visited, walls symmetric, every cell
      reachable from every other, and exactly rows * cols - 1 open walls, so
      the open walls form a spanning tree of the grid graph. */
  ghost predicate Perfect(g: Grid)
    requires WellFormed(g)
  {
    && (forall x {:trigger At(g, x)} :: InBounds(g, x) ==> At(g, x).visited)
    && Symmetric(g)
    && (forall a, b {:trigger Reachable(g, a, b)} :: InBounds(g, a) && InBounds(g, b) ==> Reachable(g, a, b))
    && |OpenEdges(g)| == g.rows * g.cols - 1
  }

  /** A symmetric grid whose visited cells are closed under neighbours and
      reachable from a visited `start`, and which has one open wall fewer
      than visited cells, is a perfect maze. */
  lemma PerfectFromSpans(r: Grid, start: Coord)
    requires WellFormed(r) && InBounds(r, start) && At(r, start).visited && Symmetric(r)
    requires forall y {:trigger At(r, y)} :: InBounds(r, y) && At(r, y).visited ==>
               NeighborsVisited(r, y) && Reachable(r, start, y)
    requires |OpenEdges(r)| + 1 == |VisitedCells(r)|
    ensures Perfect(r)
  {
    AllReached(r, start);
    AllVisitedCount(r);
    forall x | InBounds(r, x)
      ensures Reachable(r, start, x)
    {
      assert At(r, x).visited;
    }
    ConnectedFromOne(r, start);
  }

  /** Once every cell is visited, the visited cells number rows * cols. */
  lemma AllVisitedCount(r: Grid)
    requires WellFormed(r)
    requires forall x {:trigger At(r, x)} :: InBounds(r, x) ==> At(r, x).visited
    ensures |VisitedCells(r)| == r.rows * r.cols
  {
    assert VisitedCells(r) == AllCells(r);
    AllCellsCard(r);
  }

  /** The generator run from any in-bounds start on a fresh grid, for every
      choice of shuffles, yields a perfect maze. */
  lemma SpanningTree(rows: nat, cols: nat, start: Coord, order: Coord -> seq<Dir>)
    requires InBounds(NewGrid(rows, cols), start) && ValidOrder(order)
    ensures Perfect(Carve(NewGrid(rows, cols), start, order))
  {
    var g := NewGrid(rows, cols);
    NewGridReady(rows, cols);
    CarveSpans(g, start, order);
    var r := Carve(g, start, order);
    SpansFromFresh(g, r, start);
    PerfectFromSpans(r, start);
  }

  /** The generator run on a fresh grid: for every choice of shuffles it
      returns a perfect maze of the requested shape. */
  method Generate(rows: nat, cols: nat, start: Coord, order: Coord -> seq<Dir>) returns (r: Grid)
    requires 0 <= start.row < rows && 0 <= start.col < cols && ValidOrder(order)
    ensures WellFormed(r) && r.rows == rows && r.cols == cols
    ensures Perfect(r)
  {
    r := Carve(NewGrid(rows, cols), start, order);
    SpanningTree(rows, cols, start, order);
  }
}
