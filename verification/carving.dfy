/** The maze generator: randomised depth-first carving. `Carve` is one call
    of the recursive generator (mark the cell, then try the four directions
    in the cell's shuffled order); `CarveFrom` is the loop over the directions
    that remain. The shuffle is a parameter: `order(c)` is the permutation
    drawn when the generator enters `c`, which it does at most once. */
module Carving {
  import opened MazeGrid
  import opened Paths

  /** A shuffle of the four directions. */
  predicate IsShuffle(ds: seq<Dir>) {
    multiset(ds) == multiset(Directions)
  }

  ghost predicate ValidOrder(order: Coord -> seq<Dir>) {
    forall c :: IsShuffle(order(c))
  }

  lemma ShuffleCovers(ds: seq<Dir>, d: Dir)
    requires IsShuffle(ds)
    ensures d in ds
  {
    assert d in multiset(Directions);
  }

  /** The generator's chain of tests on the direction's offsets: the current
      cell `cur` and the neighbour `next` with the wall they share knocked
      down. Each of the four moves clears exactly the facing pair of walls. */
  function KnockDown(cur: Cell, next: Cell, d: Dir): (cells: (Cell, Cell))
    ensures cells.0 == ClearWall(cur, d) && cells.1 == ClearWall(next, Opposite(d))
  {
    if RowOffset(d) == 1 then (cur.(bottom := false), next.(top := false))
    else if RowOffset(d) == -1 then (cur.(top := false), next.(bottom := false))
    else if ColOffset(d) == 1 then (cur.(right := false), next.(left := false))
    else if ColOffset(d) == -1 then (cur.(left := false), next.(right := false))
    else (cur, next)
  }

  /** Knock down the wall between `c` and its neighbour in direction `d`, on
      both sides: `c` loses its wall facing `d`, the neighbour its wall facing
      back, and every other cell is left alone. */
  function OpenWall(g: Grid, c: Coord, d: Dir): (r: Grid)
    requires WellFormed(g) && InBounds(g, c) && InBounds(g, Neighbor(c, d))
    ensures WellFormed(r) && r.rows == g.rows && r.cols == g.cols
    ensures forall x {:trigger At(r, x)} :: InBounds(g, x) ==>
              At(r, x) == if x == c then ClearWall(At(g, c), d)
                          else if x == Neighbor(c, d) then ClearWall(At(g, x), Opposite(d))
                          else At(g, x)
  {
    var n := Neighbor(c, d);
    var cells := KnockDown(At(g, c), At(g, n), d);
    Put(Put(g, c, cells.0), n, cells.1)
  }

  /** From `g` to `h`: same shape, visited flags only switch on, open walls
      stay open, path marks untouched. */
  ghost predicate Grows(g: Grid, h: Grid)
    requires WellFormed(g) && WellFormed(h)
  {
    && OpenStaysOpen(g, h)
    && forall x {:trigger At(h, x)} :: InBounds(g, x) ==>
         (At(g, x).visited ==> At(h, x).visited) && At(h, x).onPath == At(g, x).onPath
  }

  /** A cell that counts as new for a carving step rooted at `c`. */
  ghost predicate Fresh(g: Grid, c: Coord, y: Coord)
    requires WellFormed(g)
  {
    y == c || (InBounds(g, y) && !At(g, y).visited)
  }

  /** Every wall knocked down between `g` and `h` is shared by two in-bounds
      cells that were both new for the step rooted at `c`. */
  ghost predicate CarvedWithin(g: Grid, h: Grid, c: Coord)
    requires WellFormed(g) && WellFormed(h) && g.rows == h.rows && g.cols == h.cols
  {
    forall x, d :: InBounds(g, x) && Wall(At(g, x), d) && !Wall(At(h, x), d) ==>
      InBounds(g, Neighbor(x, d)) && Fresh(g, c, x) && Fresh(g, c, Neighbor(x, d))
  }

  lemma SubsetCard<T>(a: set<T>, b: set<T>)
    requires a <= b
    ensures |a| <= |b|
  {
    assert b == a + (b - a);
  }

  lemma GrowsShrinksUnvisited(g: Grid, h: Grid)
    requires WellFormed(g) && WellFormed(h) && Grows(g, h)
    ensures UnvisitedCells(h) <= UnvisitedCells(g)
    ensures |UnvisitedCells(h)| <= |UnvisitedCells(g)|
  {
    SubsetCard(UnvisitedCells(h), UnvisitedCells(g));
  }

  lemma GrowsTrans(g: Grid, h: Grid, k: Grid)
    requires WellFormed(g) && WellFormed(h) && WellFormed(k)
    requires Grows(g, h) && Grows(h, k)
    ensures Grows(g, k)
  {
  }

  lemma CarvedWithinTrans(g: Grid, h: Grid, k: Grid, c: Coord, n: Coord)
    requires WellFormed(g) && WellFormed(h) && WellFormed(k)
    requires g.rows == h.rows == k.rows && g.cols == h.cols == k.cols
    requires Grows(g, h) && Grows(h, k)
    requires CarvedWithin(g, h, c) && CarvedWithin(h, k, n) && Fresh(g, c, n)
    ensures CarvedWithin(g, k, c)
  {
  }

  lemma MarkVisitedFrame(g: Grid, c: Coord)
    requires WellFormed(g) && InBounds(g, c) && !At(g, c).visited
    ensures Grows(g, MarkVisited(g, c))
    ensures CarvedWithin(g, MarkVisited(g, c), c)
    ensures UnvisitedCells(MarkVisited(g, c)) == UnvisitedCells(g) - {c}
  {
    var g1 := MarkVisited(g, c);
    forall x, d | InBounds(g, x) && !Wall(At(g, x), d)
      ensures !Wall(At(g1, x), d)
    {
    }
    forall x, d | InBounds(g, x) && Wall(At(g, x), d)
      ensures Wall(At(g1, x), d)
    {
    }
  }

  lemma OpenWallFrame(g: Grid, c: Coord, d: Dir)
    requires WellFormed(g) && InBounds(g, c) && InBounds(g, Neighbor(c, d))
    requires !At(g, Neighbor(c, d)).visited
    ensures Grows(g, OpenWall(g, c, d))
    ensures CarvedWithin(g, OpenWall(g, c, d), c)
    ensures UnvisitedCells(OpenWall(g, c, d)) == UnvisitedCells(g)
  {
    var g0 := OpenWall(g, c, d);
    var n := Neighbor(c, d);
    forall x, e | InBounds(g, x) && !Wall(At(g, x), e)
      ensures !Wall(At(g0, x), e)
    {
    }
    forall x, e | InBounds(g, x) && Wall(At(g, x), e) && !Wall(At(g0, x), e)
      ensures InBounds(g, Neighbor(x, e)) && Fresh(g, c, x) && Fresh(g, c, Neighbor(x, e))
    {
      if x == c {
        assert e == d;
      } else {
        assert x == n && e == Opposite(d);
        NeighborBack(c, d);
      }
    }
  }

  /** One call of the generator on the unvisited in-bounds cell `c`. */
  function Carve(g: Grid, c: Coord, order: Coord -> seq<Dir>): (r: Grid)
    requires WellFormed(g) && InBounds(g, c) && !At(g, c).visited
    ensures WellFormed(r) && r.rows == g.rows && r.cols == g.cols
    ensures At(r, c).visited
    ensures Grows(g, r)
    ensures CarvedWithin(g, r, c)
    ensures |UnvisitedCells(r)| < |UnvisitedCells(g)|
    decreases |UnvisitedCells(g)|, 0
  {
    var g1 := MarkVisited(g, c);
    MarkVisitedFrame(g, c);
    var r := CarveFrom(g1, c, order(c), order);
    GrowsTrans(g, g1, r);
    CarvedWithinTrans(g, g1, r, c, c);
    GrowsShrinksUnvisited(g1, r);
    r
  }

  /** The generator's loop over the directions `ds` still to try from the
      visited cell `c`: a direction is carved when its neighbour is inside the
      grid and unvisited, and the generator then recurses into that neighbour. */
  function CarveFrom(g: Grid, c: Coord, ds: seq<Dir>, order: Coord -> seq<Dir>): (r: Grid)
    requires WellFormed(g) && InBounds(g, c)
    ensures WellFormed(r) && r.rows == g.rows && r.cols == g.cols
    ensures Grows(g, r)
    ensures CarvedWithin(g, r, c)
    ensures |UnvisitedCells(r)| <= |UnvisitedCells(g)|
    decreases |UnvisitedCells(g)|, |ds|
  {
    if ds == [] then g
    else
      var n := Neighbor(c, ds[0]);
      if InBounds(g, n) && !At(g, n).visited then
        var g0 := OpenWall(g, c, ds[0]);
        OpenWallFrame(g, c, ds[0]);
        var g1 := Carve(g0, n, order);
        var r := CarveFrom(g1, c, ds[1..], order);
        CarvedWithinTrans(g, g0, g1, c, n);
        GrowsTrans(g, g0, g1);
        CarvedWithinTrans(g, g1, r, c, c);
        GrowsTrans(g, g1, r);
        GrowsShrinksUnvisited(g, r);
        r
      else
        var r := CarveFrom(g, c, ds[1..], order);
        r
  }

  /** After the loop over `ds`, an in-bounds neighbour of `c` in one of
      those directions is visited: either it already was, or the loop carved into it. */
  lemma {:induction false} CarveFromVisits(g: Grid, c: Coord, ds: seq<Dir>, order: Coord -> seq<Dir>, d: Dir)
    requires WellFormed(g) && InBounds(g, c) && d in ds && InBounds(g, Neighbor(c, d))
    ensures At(CarveFrom(g, c, ds, order), Neighbor(c, d)).visited
    decreases |ds|
  {
    var r := CarveFrom(g, c, ds, order);
    var n := Neighbor(c, ds[0]);
    if InBounds(g, n) && !At(g, n).visited {
      var g1 := Carve(OpenWall(g, c, ds[0]), n, order);
      assert r == CarveFrom(g1, c, ds[1..], order);
      if d == ds[0] {
        assert At(g1, n).visited;
      } else {
        CarveFromVisits(g1, c, ds[1..], order, d);
      }
    } else {
      assert r == CarveFrom(g, c, ds[1..], order);
      if d != ds[0] {
        CarveFromVisits(g, c, ds[1..], order, d);
      }
    }
  }
}
