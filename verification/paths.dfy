/** Movement through open walls and the paths it makes. A move always
    consults the wall of the cell being left, as the solver does. */
module Paths {
  import opened MazeGrid

  /** From `a`, direction `d` leads to an in-bounds cell and `a` has no wall on that side. */
  predicate CanMove(g: Grid, a: Coord, d: Dir)
    requires WellFormed(g)
  {
    InBounds(g, a) && InBounds(g, Neighbor(a, d)) && !Wall(At(g, a), d)
  }

  ghost predicate Step(g: Grid, a: Coord, b: Coord)
    requires WellFormed(g)
  {
    exists d :: CanMove(g, a, d) && Neighbor(a, d) == b
  }

  /** A non-empty walk of single moves, starting inside the grid. */
  ghost predicate IsPath(g: Grid, p: seq<Coord>)
    requires WellFormed(g)
  {
    && |p| >= 1
    && InBounds(g, p[0])
    && forall i :: 0 <= i < |p| - 1 ==> Step(g, p[i], p[i + 1])
  }

  ghost predicate PathFromTo(g: Grid, p: seq<Coord>, a: Coord, b: Coord)
    requires WellFormed(g)
  {
    IsPath(g, p) && p[0] == a && p[|p| - 1] == b
  }

  ghost predicate Reachable(g: Grid, a: Coord, b: Coord)
    requires WellFormed(g)
  {
    exists p :: PathFromTo(g, p, a, b)
  }

  /** Every cell of a path lies inside the grid. */
  lemma {:induction false} PathInBounds(g: Grid, p: seq<Coord>)
    requires WellFormed(g) && IsPath(g, p)
    ensures forall i :: 0 <= i < |p| ==> InBounds(g, p[i])
  {
    forall i | 0 < i < |p|
      ensures InBounds(g, p[i])
    {
      assert Step(g, p[i - 1], p[i]);
    }
  }

  /** Wall symmetry: for adjacent cells, one has a wall facing the other
      exactly when the other has a wall facing back. */
  ghost predicate Symmetric(g: Grid)
    requires WellFormed(g)
  {
    forall x, d :: InBounds(g, x) && InBounds(g, Neighbor(x, d)) ==>
      Wall(At(g, x), d) == Wall(At(g, Neighbor(x, d)), Opposite(d))
  }

  lemma NeighborBack(c: Coord, d: Dir)
    ensures Neighbor(Neighbor(c, d), Opposite(d)) == c
  {
  }

  /** Opening walls never closes a path: whatever is open in `g` is open in `h`. */
  ghost predicate OpenStaysOpen(g: Grid, h: Grid)
    requires WellFormed(g) && WellFormed(h)
  {
    && g.rows == h.rows && g.cols == h.cols
    && forall x, d :: InBounds(g, x) && !Wall(At(g, x), d) ==> !Wall(At(h, x), d)
  }

  lemma StepStays(g: Grid, h: Grid, a: Coord, b: Coord)
    requires WellFormed(g) && WellFormed(h) && OpenStaysOpen(g, h)
    requires Step(g, a, b)
    ensures Step(h, a, b)
  {
    var d :| CanMove(g, a, d) && Neighbor(a, d) == b;
    assert CanMove(h, a, d);
  }

  lemma PathStays(g: Grid, h: Grid, p: seq<Coord>)
    requires WellFormed(g) && WellFormed(h) && OpenStaysOpen(g, h)
    requires IsPath(g, p)
    ensures IsPath(h, p)
  {
    forall i | 0 <= i < |p| - 1
      ensures Step(h, p[i], p[i + 1])
    {
      StepStays(g, h, p[i], p[i + 1]);
    }
  }

  lemma ReachableStays(g: Grid, h: Grid, a: Coord, b: Coord)
    requires WellFormed(g) && WellFormed(h) && OpenStaysOpen(g, h)
    requires Reachable(g, a, b)
    ensures Reachable(h, a, b)
  {
    var p :| PathFromTo(g, p, a, b);
    PathStays(g, h, p);
    assert PathFromTo(h, p, a, b);
  }

  lemma ReachableSelf(g: Grid, a: Coord)
    requires WellFormed(g) && InBounds(g, a)
    ensures Reachable(g, a, a)
  {
    assert PathFromTo(g, [a], a, a);
  }

  /** Joining two paths that meet at `b`. */
  lemma ReachableTrans(g: Grid, a: Coord, b: Coord, c: Coord)
    requires WellFormed(g) && Reachable(g, a, b) && Reachable(g, b, c)
    ensures Reachable(g, a, c)
  {
    var p :| PathFromTo(g, p, a, b);
    var q :| PathFromTo(g, q, b, c);
    var r := p + q[1..];
    forall i | 0 <= i < |r| - 1
      ensures Step(g, r[i], r[i + 1])
    {
      if i < |p| - 1 {
        assert r[i] == p[i] && r[i + 1] == p[i + 1];
      } else {
        var k := i - (|p| - 1);
        assert r[i] == q[k] && r[i + 1] == q[k + 1];
      }
    }
    assert PathFromTo(g, r, a, c);
  }

  /** One move followed by a path. */
  lemma ReachableStep(g: Grid, a: Coord, b: Coord, c: Coord)
    requires WellFormed(g) && InBounds(g, a) && Step(g, a, b) && Reachable(g, b, c)
    ensures Reachable(g, a, c)
  {
    assert PathFromTo(g, [a, b], a, b);
    ReachableTrans(g, a, b, c);
  }

  /** In a wall-symmetric grid every move can be undone. */
  lemma StepBack(g: Grid, a: Coord, b: Coord)
    requires WellFormed(g) && Symmetric(g) && Step(g, a, b)
    ensures Step(g, b, a)
  {
    var d :| CanMove(g, a, d) && Neighbor(a, d) == b;
    NeighborBack(a, d);
    assert CanMove(g, b, Opposite(d));
  }

  /** In a wall-symmetric grid reachability is symmetric. */
  lemma {:induction false} ReachableBack(g: Grid, a: Coord, b: Coord)
    requires WellFormed(g) && Symmetric(g) && Reachable(g, a, b)
    ensures Reachable(g, b, a)
  {
    var p :| PathFromTo(g, p, a, b);
    PathInBounds(g, p);
    var r := seq(|p|, i requires 0 <= i < |p| => p[|p| - 1 - i]);
    forall i | 0 <= i < |r| - 1
      ensures Step(g, r[i], r[i + 1])
    {
      var k := |p| - 2 - i;
      assert Step(g, p[k], p[k + 1]);
      StepBack(g, p[k], p[k + 1]);
    }
    assert PathFromTo(g, r, b, a);
  }
}
