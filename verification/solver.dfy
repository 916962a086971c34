/** The breadth-first solver. It explores from the entry through open walls,
    never entering a cell that is already visited, records for every cell it
    discovers the cell it came from, and when it dequeues the exit walks those
    records back to the entry, marking each cell as part of the solution. */
module Solver {
  import opened MazeGrid
  import opened Paths

  /** A walk the solver can take in `g`: a path whose every cell after the
      first was unvisited in `g`, since the solver never enters a cell that
      is already marked. */
  ghost predicate IsRoute(g: Grid, p: seq<Coord>)
    requires WellFormed(g)
  {
    && IsPath(g, p)
    && forall i :: 1 <= i < |p| ==> InBounds(g, p[i]) && !At(g, p[i]).visited
  }

  ghost predicate RouteFromTo(g: Grid, p: seq<Coord>, a: Coord, b: Coord)
    requires WellFormed(g)
  {
    IsRoute(g, p) && p[0] == a && p[|p| - 1] == b
  }

  /** `b` can be reached from `a` by a route. */
  ghost predicate Accessible(g: Grid, a: Coord, b: Coord)
    requires WellFormed(g)
  {
    exists p :: RouteFromTo(g, p, a, b)
  }

  /** The solver's move test, written as the program's chain of checks on the
      direction offsets and the current cell's walls. */
  function Passable(cell: Cell, d: Dir): (b: bool)
    ensures b == !Wall(cell, d)
  {
    if RowOffset(d) == 1 && !cell.bottom then true
    else if RowOffset(d) == -1 && !cell.top then true
    else if ColOffset(d) == 1 && !cell.right then true
    else if ColOffset(d) == -1 && !cell.left then true
    else false
  }

  /** A route is a path; on a grid with nothing visited every path is a route. */
  lemma {:induction false} AccessibleIffReachable(g: Grid, a: Coord, b: Coord)
    requires WellFormed(g)
    ensures Accessible(g, a, b) ==> Reachable(g, a, b)
    ensures AllUnvisited(g) ==> (Accessible(g, a, b) <==> Reachable(g, a, b))
  {
    if Accessible(g, a, b) {
      var p :| RouteFromTo(g, p, a, b);
      assert PathFromTo(g, p, a, b);
    }
    if AllUnvisited(g) && Reachable(g, a, b) {
      var p :| PathFromTo(g, p, a, b);
      PathInBounds(g, p);
      assert RouteFromTo(g, p, a, b);
    }
  }

  lemma AccessibleSelf(g: Grid, a: Coord)
    requires WellFormed(g) && InBounds(g, a)
    ensures Accessible(g, a, a)
  {
    assert RouteFromTo(g, [a], a, a);
  }

  /** A route followed by one move into a cell unvisited in `g`. */
  lemma RouteExtend(g: Grid, p: seq<Coord>, v: Coord)
    requires WellFormed(g) && IsRoute(g, p) && Step(g, p[|p| - 1], v)
    requires InBounds(g, v) && !At(g, v).visited
    ensures IsRoute(g, p + [v])
  {
    var r := p + [v];
    forall i | 0 <= i < |r| - 1
      ensures Step(g, r[i], r[i + 1])
    {
      if i < |p| - 1 {
        assert r[i] == p[i] && r[i + 1] == p[i + 1];
      }
    }
  }

  lemma AccessibleExtend(g: Grid, a: Coord, b: Coord, v: Coord)
    requires WellFormed(g) && Accessible(g, a, b) && Step(g, b, v)
    requires InBounds(g, v) && !At(g, v).visited
    ensures Accessible(g, a, v)
  {
    var p :| RouteFromTo(g, p, a, b);
    RouteExtend(g, p, v);
    assert RouteFromTo(g, p + [v], a, v);
  }

  /** Every non-empty prefix of a route is a route. */
  lemma RoutePrefix(g: Grid, p: seq<Coord>, n: int)
    requires WellFormed(g) && IsRoute(g, p) && 1 <= n <= |p|
    ensures IsRoute(g, p[..n])
  {
    var r := p[..n];
    forall i | 0 <= i < |r| - 1
      ensures Step(g, r[i], r[i + 1])
    {
      assert r[i] == p[i] && r[i + 1] == p[i + 1];
    }
  }

  /** A sequence that starts inside `s` and ends outside it leaves `s` at some step. */
  lemma {:induction false} FirstLeave(p: seq<Coord>, s: set<Coord>) returns (i: int)
    requires |p| >= 1 && p[0] in s && p[|p| - 1] !in s
    ensures 1 <= i < |p| && p[i - 1] in s && p[i] !in s
  {
    if p[1] !in s {
      i := 1;
    } else {
      var j := FirstLeave(p[1..], s);
      i := j + 1;
    }
  }

  /** The grid the solver works on is `g` with the discovered cells `seen`
      marked visited and nothing else changed. */
  ghost predicate Tracks(g: Grid, h: Grid, seen: set<Coord>)
    requires WellFormed(g)
  {
    && WellFormed(h) && h.rows == g.rows && h.cols == g.cols
    && forall x {:trigger At(h, x)} :: InBounds(g, x) ==>
         At(h, x) == At(g, x).(visited := At(g, x).visited || x in seen)
  }

  /** The predecessor records: `dist` gives each discovered cell its layer,
      the entry is layer 0, and every other discovered cell was unvisited in
      `g` and is one move on from its recorded predecessor, which lies one
      layer closer. */
  ghost predicate Chained(g: Grid, entry: Coord, seen: set<Coord>, pred: map<Coord, Coord>, dist: map<Coord, nat>)
    requires WellFormed(g)
  {
    && entry in seen && dist.Keys == seen && dist[entry] == 0
    && (forall v :: v in seen ==> InBounds(g, v))
    && forall v {:trigger pred[v]} {:trigger dist[v]} :: v in seen && v != entry ==>
         && v in pred && pred[v] in seen && Step(g, pred[v], v)
         && !At(g, v).visited && dist[v] == dist[pred[v]] + 1
  }

  /** The search records, and every discovered cell is reachable by a route from the entry. */
  ghost predicate Layered(g: Grid, entry: Coord, seen: set<Coord>, pred: map<Coord, Coord>, dist: map<Coord, nat>)
    requires WellFormed(g)
  {
    Chained(g, entry, seen, pred, dist) && forall v :: v in seen ==> Accessible(g, entry, v)
  }

  /** No route from the entry reaches a discovered cell in fewer moves than its layer. */
  ghost predicate Minimal(g: Grid, entry: Coord, dist: map<Coord, nat>)
    requires WellFormed(g)
  {
    forall p {:trigger IsRoute(g, p)} :: IsRoute(g, p) && p[0] == entry && p[|p| - 1] in dist ==>
      |p| - 1 >= dist[p[|p| - 1]]
  }

  /** Every route from the entry to a cell outside `s` takes at least `k` moves. */
  ghost predicate Beyond(g: Grid, entry: Coord, s: set<Coord>, k: int)
    requires WellFormed(g)
  {
    forall p {:trigger IsRoute(g, p)} :: IsRoute(g, p) && p[0] == entry && p[|p| - 1] !in s ==>
      |p| - 1 >= k
  }

  /** Queue layers never decrease from front to back. */
  ghost predicate Sorted(q: seq<Coord>, dist: map<Coord, nat>)
  {
    && (forall i :: 0 <= i < |q| ==> q[i] in dist)
    && forall i, j :: 0 <= i <= j < |q| ==> dist[q[i]] <= dist[q[j]]
  }

  /** The queue holds discovered cells in layer order, spanning at most two
      adjacent layers, and every discovered cell is either finished or queued. */
  ghost predicate Queued(q: seq<Coord>, done: set<Coord>, seen: set<Coord>, dist: map<Coord, nat>)
  {
    && done <= seen && dist.Keys == seen
    && (forall i :: 0 <= i < |q| ==> q[i] in seen)
    && (forall x :: x in seen ==> x in done || x in q)
    && Sorted(q, dist)
    && forall i :: 0 <= i < |q| ==> dist[q[i]] <= dist[q[0]] + 1
  }

  /** Every move from a finished cell into a cell unvisited in `g` lands on a discovered cell. */
  ghost predicate Closed(g: Grid, done: set<Coord>, seen: set<Coord>)
    requires WellFormed(g)
  {
    forall a, d :: a in done && CanMove(g, a, d) && !At(g, Neighbor(a, d)).visited ==> Neighbor(a, d) in seen
  }

  lemma ClosedStep(g: Grid, done: set<Coord>, seen: set<Coord>, a: Coord, b: Coord)
    requires WellFormed(g) && Closed(g, done, seen) && Step(g, a, b)
    requires InBounds(g, b) && !At(g, b).visited
    ensures a in done ==> b in seen
  {
    var d :| CanMove(g, a, d) && Neighbor(a, d) == b;
  }

  /** The breadth-first frontier bound: a route from the entry to an
      undiscovered cell leaves the discovered cells from a queued one, so it
      takes at least one move more than the front of the queue's layer. */
  lemma FrontierBound(g: Grid, entry: Coord, q: seq<Coord>, done: set<Coord>, seen: set<Coord>,
                      pred: map<Coord, Coord>, dist: map<Coord, nat>)
    requires WellFormed(g) && Layered(g, entry, seen, pred, dist) && Minimal(g, entry, dist)
    requires Queued(q, done, seen, dist) && Closed(g, done, seen) && |q| > 0
    ensures Beyond(g, entry, seen, dist[q[0]] + 1)
  {
    forall p | IsRoute(g, p) && p[0] == entry && p[|p| - 1] !in seen
      ensures |p| - 1 >= dist[q[0]] + 1
    {
      var i := FirstLeave(p, seen);
      assert Step(g, p[i - 1], p[i]);
      ClosedStep(g, done, seen, p[i - 1], p[i]);
      var k :| 0 <= k < |q| && q[k] == p[i - 1];
      RoutePrefix(g, p, i);
      assert p[..i][i - 1] == p[i - 1];
    }
  }

  /** When no cell is queued, every route from the entry stays among the
      discovered cells. */
  lemma Exhausted(g: Grid, entry: Coord, done: set<Coord>, seen: set<Coord>, p: seq<Coord>)
    requires WellFormed(g) && Closed(g, done, seen) && seen <= done && entry in seen
    requires IsRoute(g, p) && p[0] == entry
    ensures p[|p| - 1] in seen
  {
    if p[|p| - 1] !in seen {
      var i := FirstLeave(p, seen);
      assert Step(g, p[i - 1], p[i]);
      ClosedStep(g, done, seen, p[i - 1], p[i]);
    }
  }

  /** Discovering a cell beyond `s` at layer `k` keeps the layers minimal. */
  lemma MinimalAdd(g: Grid, entry: Coord, dist: map<Coord, nat>, s: set<Coord>, v: Coord, k: nat)
    requires WellFormed(g) && Minimal(g, entry, dist) && Beyond(g, entry, s, k) && v !in s
    ensures Minimal(g, entry, dist[v := k])
  {
  }

  lemma DiscoverTracks(g: Grid, h: Grid, seen: set<Coord>, n: Coord)
    requires WellFormed(g) && Tracks(g, h, seen) && InBounds(g, n)
    ensures Tracks(g, Put(h, n, At(h, n).(visited := true)), seen + {n})
  {
  }

  lemma DiscoverChained(g: Grid, entry: Coord, seen: set<Coord>, pred: map<Coord, Coord>,
                        dist: map<Coord, nat>, cur: Coord, n: Coord)
    requires WellFormed(g) && Chained(g, entry, seen, pred, dist)
    requires cur in seen && Step(g, cur, n) && InBounds(g, n) && !At(g, n).visited && n !in seen
    ensures Chained(g, entry, seen + {n}, pred[n := cur], dist[n := dist[cur] + 1])
  {
  }

  lemma DiscoverAccessible(g: Grid, entry: Coord, seen: set<Coord>, cur: Coord, n: Coord)
    requires WellFormed(g) && (forall v :: v in seen ==> Accessible(g, entry, v))
    requires cur in seen && Step(g, cur, n) && InBounds(g, n) && !At(g, n).visited
    ensures forall v :: v in seen + {n} ==> Accessible(g, entry, v)
  {
    AccessibleExtend(g, entry, cur, n);
  }

  /** The bookkeeping for discovering `n` from the current cell `cur`. */
  lemma Discover(g: Grid, h: Grid, entry: Coord, seen: set<Coord>, pred: map<Coord, Coord>,
                 dist: map<Coord, nat>, s: set<Coord>, cur: Coord, d: Dir, b: nat)
    requires WellFormed(g) && Tracks(g, h, seen) && Layered(g, entry, seen, pred, dist)
    requires cur in seen && dist[cur] == b && CanMove(g, cur, d)
    requires Minimal(g, entry, dist) && Beyond(g, entry, s, b + 1) && s <= seen
    requires InBounds(g, Neighbor(cur, d)) && !At(h, Neighbor(cur, d)).visited
    ensures Neighbor(cur, d) !in seen && !At(g, Neighbor(cur, d)).visited
    ensures Tracks(g, Put(h, Neighbor(cur, d), At(h, Neighbor(cur, d)).(visited := true)), seen + {Neighbor(cur, d)})
    ensures Layered(g, entry, seen + {Neighbor(cur, d)}, pred[Neighbor(cur, d) := cur],
                    dist[Neighbor(cur, d) := b + 1])
    ensures Minimal(g, entry, dist[Neighbor(cur, d) := b + 1])
  {
    var n := Neighbor(cur, d);
    assert At(h, n) == At(g, n).(visited := At(g, n).visited || n in seen);
    assert Step(g, cur, n);
    DiscoverTracks(g, h, seen, n);
    DiscoverChained(g, entry, seen, pred, dist, cur, n);
    DiscoverAccessible(g, entry, seen, cur, n);
    MinimalAdd(g, entry, dist, s, n, b + 1);
  }

  /** Every direction is one of the four the solver tries. */
  lemma DirectionsComplete(d: Dir)
    ensures exists j :: 0 <= j < |Directions| && Directions[j] == d
  {
    match d
    case Down => assert Directions[0] == d;
    case Up => assert Directions[1] == d;
    case Right => assert Directions[2] == d;
    case Left => assert Directions[3] == d;
  }

  /** From the queue `q` and the discovered set `seen` at the start of a
      direction loop to `q'` and `seen'`: the old queue is a prefix of the
      new one, each cell appended was newly discovered at layer `b + 1`, and
      the queue stays in layer order within layers `b` and `b + 1`. */
  ghost predicate Grown(q: seq<Coord>, seen: set<Coord>, q': seq<Coord>, seen': set<Coord>,
                        dist': map<Coord, nat>, b: nat)
  {
    && seen <= seen' && |q'| >= |q| && q'[..|q|] == q
    && Sorted(q', dist')
    && (forall i :: |q| <= i < |q'| ==> q'[i] !in seen && dist'[q'[i]] == b + 1)
    && (forall x :: x in seen' ==> x in seen || x in q'[|q|..])
    && (forall i :: 0 <= i < |q'| ==> q'[i] in seen' && b <= dist'[q'[i]] <= b + 1)
  }

  lemma GrowOne(q: seq<Coord>, seen: set<Coord>, q': seq<Coord>, seen': set<Coord>,
                dist': map<Coord, nat>, b: nat, n: Coord)
    requires Grown(q, seen, q', seen', dist', b) && dist'.Keys == seen' && n !in seen'
    ensures Grown(q, seen, q' + [n], seen' + {n}, dist'[n := b + 1], b)
  {
    var q2 := q' + [n];
    var d2 := dist'[n := b + 1];
    assert q2[..|q|] == q'[..|q|];
    forall i | 0 <= i < |q2|
      ensures q2[i] in d2 && d2[q2[i]] == if i < |q'| then dist'[q'[i]] else b + 1
    {
      if i < |q'| {
        assert q2[i] == q'[i] && q'[i] in seen';
      }
    }
    forall x | x in seen' + {n}
      ensures x in seen || x in q2[|q|..]
    {
      if x != n && x !in seen {
        var m :| 0 <= m < |q'| - |q| && q'[|q|..][m] == x;
        assert q2[|q|..][m] == x;
      } else if x == n {
        assert q2[|q|..][|q2| - 1 - |q|] == n;
      }
    }
  }

  /** The first `k` directions from `cur` have been tried: each open move
      among them into a cell unvisited in `g` ends on a discovered cell. */
  ghost predicate Covered(g: Grid, cur: Coord, seen: set<Coord>, k: int)
    requires WellFormed(g) && 0 <= k <= |Directions|
  {
    forall j :: 0 <= j < k ==>
      (CanMove(g, cur, Directions[j]) && !At(g, Neighbor(cur, Directions[j])).visited ==>
         Neighbor(cur, Directions[j]) in seen)
  }

  lemma CoveredNext(g: Grid, cur: Coord, seen: set<Coord>, seen': set<Coord>, k: int)
    requires WellFormed(g) && 0 <= k < |Directions| && Covered(g, cur, seen, k) && seen <= seen'
    requires CanMove(g, cur, Directions[k]) && !At(g, Neighbor(cur, Directions[k])).visited ==>
               Neighbor(cur, Directions[k]) in seen'
    ensures Covered(g, cur, seen', k + 1)
  {
  }

  lemma CountOne(all: set<Coord>, seen: set<Coord>, n: Coord)
    requires n in all && n !in seen
    ensures |all - (seen + {n})| == |all - seen| - 1
  {
    assert all - (seen + {n}) == (all - seen) - {n};
  }

  /** The bookkeeping for discovering the neighbour of `cur` in direction `d`
      during a direction loop that began with queue `q0` and discovered set `seen0`. */
  lemma DiscoverStep(g: Grid, h: Grid, q: seq<Coord>, pred: map<Coord, Coord>, seen: set<Coord>,
                     dist: map<Coord, nat>, entry: Coord, cur: Coord, d: Dir,
                     q0: seq<Coord>, seen0: set<Coord>, b: nat)
    requires WellFormed(g) && Tracks(g, h, seen) && Layered(g, entry, seen, pred, dist)
    requires Minimal(g, entry, dist) && Grown(q0, seen0, q, seen, dist, b)
    requires cur in seen0 && dist[cur] == b && Beyond(g, entry, seen0, b + 1)
    requires CanMove(g, cur, d) && !At(h, Neighbor(cur, d)).visited
    ensures Neighbor(cur, d) !in seen
    ensures Tracks(g, Put(h, Neighbor(cur, d), At(h, Neighbor(cur, d)).(visited := true)), seen + {Neighbor(cur, d)})
    ensures Layered(g, entry, seen + {Neighbor(cur, d)}, pred[Neighbor(cur, d) := cur], dist[Neighbor(cur, d) := b + 1])
    ensures Minimal(g, entry, dist[Neighbor(cur, d) := b + 1])
    ensures Grown(q0, seen0, q + [Neighbor(cur, d)], seen + {Neighbor(cur, d)}, dist[Neighbor(cur, d) := b + 1], b)
    ensures |AllCells(g) - (seen + {Neighbor(cur, d)})| + |q + [Neighbor(cur, d)]| == |AllCells(g) - seen| + |q|
  {
    var n := Neighbor(cur, d);
    Discover(g, h, entry, seen, pred, dist, seen0, cur, d, b);
    GrowOne(q0, seen0, q, seen, dist, b, n);
    CountOne(AllCells(g), seen, n);
  }

  /** Discovering the neighbour `n` of the dequeued cell `cur` in
      direction `d`: mark it visited, append it to the queue, and record `cur`
      as its predecessor, one layer further out. */
  method Visit(g: Grid, h: Grid, q: seq<Coord>, pred: map<Coord, Coord>, ghost seen: set<Coord>,
               ghost dist: map<Coord, nat>, ghost entry: Coord, cur: Coord, d: Dir,
               ghost q0: seq<Coord>, ghost seen0: set<Coord>, ghost b: nat)
    returns (h': Grid, q': seq<Coord>, pred': map<Coord, Coord>, ghost seen': set<Coord>,
             ghost dist': map<Coord, nat>)
    requires WellFormed(g) && Tracks(g, h, seen) && Layered(g, entry, seen, pred, dist)
    requires Minimal(g, entry, dist) && Grown(q0, seen0, q, seen, dist, b)
    requires cur in seen0 && dist[cur] == b && Beyond(g, entry, seen0, b + 1)
    requires CanMove(g, cur, d) && !At(h, Neighbor(cur, d)).visited
    ensures Tracks(g, h', seen') && Layered(g, entry, seen', pred', dist') && Minimal(g, entry, dist')
    ensures Grown(q0, seen0, q', seen', dist', b) && dist'[cur] == b
    ensures seen' == seen + {Neighbor(cur, d)}
    ensures |AllCells(g) - seen'| + |q'| == |AllCells(g) - seen| + |q|
    ensures WellFormed(h') && h'.rows == g.rows && h'.cols == g.cols && At(h', Neighbor(cur, d)).visited
    ensures q' == q + [Neighbor(cur, d)] && Neighbor(cur, d) in pred' && pred'[Neighbor(cur, d)] == cur
  {
    var n := Neighbor(cur, d);
    DiscoverStep(g, h, q, pred, seen, dist, entry, cur, d, q0, seen0, b);
    h' := Put(h, n, At(h, n).(visited := true));
    q' := q + [n];
    pred' := pred[n := cur];
    seen' := seen + {n};
    dist' := dist[n := b + 1];
  }

  /** One pass of the solver's loop over the directions: direction `k` from
      the dequeued cell `cur`. The neighbour is discovered when it lies inside
      the grid, is not yet visited, and the current cell has no wall on that
      side. `q0` and `seen0` are the queue and discovered set when the loop began. */
  method TryDirection(g: Grid, h: Grid, q: seq<Coord>, pred: map<Coord, Coord>, ghost seen: set<Coord>,
                      ghost dist: map<Coord, nat>, ghost entry: Coord, cur: Coord, k: int,
                      ghost q0: seq<Coord>, ghost seen0: set<Coord>, ghost b: nat)
    returns (h': Grid, q': seq<Coord>, pred': map<Coord, Coord>, ghost seen': set<Coord>,
             ghost dist': map<Coord, nat>)
    requires WellFormed(g) && Tracks(g, h, seen) && Layered(g, entry, seen, pred, dist)
    requires Minimal(g, entry, dist) && Grown(q0, seen0, q, seen, dist, b)
    requires cur in seen0 && dist[cur] == b && Beyond(g, entry, seen0, b + 1)
    requires 0 <= k < |Directions| && Covered(g, cur, seen, k)
    ensures Tracks(g, h', seen') && Layered(g, entry, seen', pred', dist') && Minimal(g, entry, dist')
    ensures Grown(q0, seen0, q', seen', dist', b) && dist'[cur] == b
    ensures Covered(g, cur, seen', k + 1)
    ensures |AllCells(g) - seen'| + |q'| == |AllCells(g) - seen| + |q|
    ensures q' == q || q' == q + [Neighbor(cur, Directions[k])]
  {
    h', q', pred', seen', dist' := h, q, pred, seen, dist;
    var d := Directions[k];
    var n := Neighbor(cur, d);
    if InBounds(h, n) && !At(h, n).visited {
      var canMove := Passable(At(h, cur), d);
      if canMove {
        h', q', pred', seen', dist' := Visit(g, h, q, pred, seen, dist, entry, cur, d, q0, seen0, b);
      }
    }
    assert CanMove(g, cur, d) && !At(g, n).visited ==> n in seen' by {
      if CanMove(g, cur, d) && !At(g, n).visited && n !in seen {
        assert At(h, n) == At(g, n).(visited := At(g, n).visited || n in seen);
      }
    }
    CoveredNext(g, cur, seen, seen', k);
  }

  /** The solver's loop over the four directions from the dequeued cell
      `cur`. Afterwards every open move from `cur` into a cell unvisited in
      `g` ends on a discovered cell. */
  method Expand(g: Grid, h: Grid, q: seq<Coord>, pred: map<Coord, Coord>, ghost seen: set<Coord>,
                ghost dist: map<Coord, nat>, ghost entry: Coord, cur: Coord)
    returns (h': Grid, q': seq<Coord>, pred': map<Coord, Coord>, ghost seen': set<Coord>,
             ghost dist': map<Coord, nat>)
    requires WellFormed(g) && Tracks(g, h, seen) && Layered(g, entry, seen, pred, dist)
    requires Minimal(g, entry, dist) && cur in seen && Beyond(g, entry, seen, dist[cur] + 1)
    requires Grown(q, seen, q, seen, dist, dist[cur])
    ensures Tracks(g, h', seen') && Layered(g, entry, seen', pred', dist') && Minimal(g, entry, dist')
    ensures Grown(q, seen, q', seen', dist', dist[cur])
    ensures forall d :: CanMove(g, cur, d) && !At(g, Neighbor(cur, d)).visited ==> Neighbor(cur, d) in seen'
    ensures |AllCells(g) - seen'| + |q'| == |AllCells(g) - seen| + |q|
    ensures |q| <= |q'| <= |q| + 4 && q'[..|q|] == q
  {
    h', q', pred', seen', dist' := h, q, pred, seen, dist;
    var k := 0;
    while k < |Directions|
      invariant 0 <= k <= |Directions|
      invariant Tracks(g, h', seen') && Layered(g, entry, seen', pred', dist') && Minimal(g, entry, dist')
      invariant Grown(q, seen, q', seen', dist', dist[cur]) && dist'[cur] == dist[cur]
      invariant Covered(g, cur, seen', k)
      invariant |AllCells(g) - seen'| + |q'| == |AllCells(g) - seen| + |q|
      invariant |q'| <= |q| + k
    {
      h', q', pred', seen', dist' := TryDirection(g, h', q', pred', seen', dist', entry, cur, k, q, seen, dist[cur]);
      k := k + 1;
    }
    forall d | CanMove(g, cur, d) && !At(g, Neighbor(cur, d)).visited
      ensures Neighbor(cur, d) in seen'
    {
      DirectionsComplete(d);
    }
  }

  /** `r` is `h` with the cells of `s` marked as on the path. */
  ghost predicate MarkedAs(g: Grid, h: Grid, r: Grid, s: seq<Coord>)
    requires WellFormed(g) && WellFormed(h) && h.rows == g.rows && h.cols == g.cols
  {
    && WellFormed(r) && r.rows == g.rows && r.cols == g.cols
    && forall x {:trigger At(r, x)} :: InBounds(g, x) ==>
         At(r, x) == At(h, x).(onPath := At(h, x).onPath || x in s)
  }

  lemma MarkOne(g: Grid, h: Grid, r: Grid, s: seq<Coord>, f: Coord)
    requires WellFormed(g) && WellFormed(h) && h.rows == g.rows && h.cols == g.cols
    requires MarkedAs(g, h, r, s) && InBounds(g, f)
    ensures MarkedAs(g, h, Put(r, f, At(r, f).(onPath := true)), [f] + s)
  {
    var r' := Put(r, f, At(r, f).(onPath := true));
    forall x | InBounds(g, x)
      ensures At(r', x) == At(h, x).(onPath := At(h, x).onPath || x in [f] + s)
    {
      assert x in [f] + s <==> x == f || x in s;
    }
  }

  /** A retraced part of the solution: a route ending at the exit whose
      moves, added to the layer of its first cell, give the exit's layer. */
  ghost predicate Trail(g: Grid, dist: map<Coord, nat>, exit: Coord, p: seq<Coord>)
    requires WellFormed(g)
  {
    && |p| >= 1 && p[0] in dist && exit in dist && p[|p| - 1] == exit
    && IsRoute(g, p) && |p| - 1 + dist[p[0]] == dist[exit]
  }

  /** One step back along the predecessor records extends the retraced
      route by one cell at its start, one layer closer to the entry. */
  lemma RouteBack(g: Grid, entry: Coord, exit: Coord, seen: set<Coord>, pred: map<Coord, Coord>,
                  dist: map<Coord, nat>, f: Coord, tail: seq<Coord>)
    requires WellFormed(g) && Chained(g, entry, seen, pred, dist)
    requires f in seen && f != entry && Trail(g, dist, exit, [f] + tail)
    ensures f in pred && pred[f] in seen && dist[pred[f]] < dist[f]
    ensures Trail(g, dist, exit, [pred[f]] + ([f] + tail))
  {
    var route := [f] + tail;
    var p := pred[f];
    var r := [p] + route;
    forall i | 0 <= i < |r| - 1
      ensures Step(g, r[i], r[i + 1])
    {
      if i > 0 {
        assert r[i] == route[i - 1] && r[i + 1] == route[i];
      }
    }
    forall i | 1 <= i < |r|
      ensures InBounds(g, r[i]) && !At(g, r[i]).visited
    {
      assert r[i] == route[i - 1];
    }
  }

  /** The solver's path reconstruction: from the exit it follows the
      predecessor records back to the entry, marking each cell on the way and
      finally the entry. The walk it retraces is a route of exactly as many
      moves as the exit's layer. */
  method MarkRoute(g: Grid, h: Grid, entry: Coord, exit: Coord, pred: map<Coord, Coord>,
                   ghost seen: set<Coord>, ghost dist: map<Coord, nat>)
    returns (r: Grid, ghost route: seq<Coord>)
    requires WellFormed(g) && WellFormed(h) && h.rows == g.rows && h.cols == g.cols
    requires Chained(g, entry, seen, pred, dist) && exit in seen
    ensures WellFormed(r) && r.rows == g.rows && r.cols == g.cols
    ensures forall x {:trigger At(r, x)} :: InBounds(g, x) ==>
              At(r, x) == At(h, x).(onPath := At(h, x).onPath || x in route)
    ensures RouteFromTo(g, route, entry, exit) && |route| - 1 == dist[exit]
  {
    var f := exit;
    r := h;
    ghost var tail: seq<Coord> := [];
    while f != entry
      invariant f in seen && Trail(g, dist, exit, [f] + tail) && MarkedAs(g, h, r, tail)
      decreases dist[f]
    {
      RouteBack(g, entry, exit, seen, pred, dist, f, tail);
      MarkOne(g, h, r, tail, f);
      r := Put(r, f, At(r, f).(onPath := true));
      tail := [f] + tail;
      f := pred[f];
    }
    MarkOne(g, h, r, tail, entry);
    r := Put(r, entry, At(r, entry).(onPath := true));
    route := [entry] + tail;
  }

  /** Taking the front cell off a queue in layer order leaves the rest
      within the front cell's layer and the next. */
  lemma Dequeue(q: seq<Coord>, done: set<Coord>, seen: set<Coord>, dist: map<Coord, nat>)
    requires Queued(q, done, seen, dist) && |q| > 0
    ensures Grown(q[1..], seen, q[1..], seen, dist, dist[q[0]])
  {
    var r := q[1..];
    assert r[..|r|] == r;
    forall x | x in seen
      ensures x in seen || x in r[|r|..]
    {
    }
    forall i | 0 <= i < |r|
      ensures r[i] in seen && dist[q[0]] <= dist[r[i]] <= dist[q[0]] + 1
    {
      assert r[i] == q[i + 1];
    }
    assert Sorted(r, dist) by {
      forall i, j | 0 <= i <= j < |r|
        ensures dist[r[i]] <= dist[r[j]]
      {
        assert r[i] == q[i + 1] && r[j] == q[j + 1];
      }
    }
  }

  /** After the direction loop the queue is again in layer order, and with
      the dequeued cell finished every discovered cell is finished or queued. */
  lemma Requeue(q0: seq<Coord>, done: set<Coord>, seen0: set<Coord>, dist0: map<Coord, nat>,
                q: seq<Coord>, seen: set<Coord>, dist: map<Coord, nat>)
    requires Queued(q0, done, seen0, dist0) && |q0| > 0
    requires Grown(q0[1..], seen0, q, seen, dist, dist0[q0[0]]) && dist.Keys == seen
    ensures Queued(q, done + {q0[0]}, seen, dist)
  {
    var n := |q0| - 1;
    forall x | x in seen
      ensures x in done + {q0[0]} || x in q
    {
      if x in seen0 && x != q0[0] && x !in done {
        var m :| 0 <= m < |q0| && q0[m] == x;
        assert q0[1..][m - 1] == x;
        assert q[..n][m - 1] == x;
      } else if x !in seen0 {
        var m :| 0 <= m < |q| - n && q[n..][m] == x;
        assert q[n + m] == x;
      }
    }
  }

  /** Finishing a cell whose open moves all end on discovered cells keeps
      the finished cells closed. */
  lemma ClosedAdd(g: Grid, done: set<Coord>, seen0: set<Coord>, seen: set<Coord>, cur: Coord)
    requires WellFormed(g) && Closed(g, done, seen0) && seen0 <= seen
    requires forall d :: CanMove(g, cur, d) && !At(g, Neighbor(cur, d)).visited ==> Neighbor(cur, d) in seen
    ensures Closed(g, done + {cur}, seen)
  {
  }

  /** What the solver promises when it dequeues the exit and retraces the route. */
  lemma FoundOutcome(g: Grid, h: Grid, r: Grid, route: seq<Coord>, entry: Coord, exit: Coord,
                     seen: set<Coord>, pred: map<Coord, Coord>, dist: map<Coord, nat>)
    requires WellFormed(g) && Tracks(g, h, seen) && Layered(g, entry, seen, pred, dist)
    requires Minimal(g, entry, dist) && exit in seen
    requires WellFormed(r) && r.rows == g.rows && r.cols == g.cols
    requires forall x {:trigger At(r, x)} :: InBounds(g, x) ==>
               At(r, x) == At(h, x).(onPath := At(h, x).onPath || x in route)
    requires RouteFromTo(g, route, entry, exit) && |route| - 1 == dist[exit]
    ensures forall x {:trigger At(r, x)} :: InBounds(g, x) ==> SameWalls(At(r, x), At(g, x))
    ensures Accessible(g, entry, exit)
    ensures forall p :: RouteFromTo(g, p, entry, exit) ==> |route| <= |p|
    ensures forall x {:trigger At(r, x)} :: InBounds(g, x) ==> At(r, x).onPath == (At(g, x).onPath || x in route)
    ensures At(r, entry).visited
    ensures forall x {:trigger At(r, x)} :: InBounds(g, x) && At(r, x).visited ==>
              At(g, x).visited || Accessible(g, entry, x)
  {
    forall x | InBounds(g, x)
      ensures At(r, x) == At(g, x).(visited := At(g, x).visited || x in seen, onPath := At(g, x).onPath || x in route)
    {
      assert At(h, x) == At(g, x).(visited := At(g, x).visited || x in seen);
    }
    forall p | RouteFromTo(g, p, entry, exit)
      ensures |route| <= |p|
    {
      assert IsRoute(g, p);
    }
  }

  /** What the solver promises when its queue runs dry. */
  lemma NotFoundOutcome(g: Grid, h: Grid, entry: Coord, exit: Coord, done: set<Coord>,
                        seen: set<Coord>, pred: map<Coord, Coord>, dist: map<Coord, nat>)
    requires WellFormed(g) && Tracks(g, h, seen) && Layered(g, entry, seen, pred, dist)
    requires Queued([], done, seen, dist) && Closed(g, done, seen) && exit !in done
    ensures forall x {:trigger At(h, x)} :: InBounds(g, x) ==> SameWalls(At(h, x), At(g, x))
    ensures !Accessible(g, entry, exit)
    ensures forall x {:trigger At(h, x)} :: InBounds(g, x) ==> At(h, x).onPath == At(g, x).onPath
    ensures At(h, entry).visited
    ensures forall x {:trigger At(h, x)} :: InBounds(g, x) ==>
              (At(h, x).visited <==> At(g, x).visited || Accessible(g, entry, x))
  {
    forall x | InBounds(g, x) && Accessible(g, entry, x)
      ensures x in seen
    {
      var p :| RouteFromTo(g, p, entry, x);
      Exhausted(g, entry, done, seen, p);
    }
    forall x | InBounds(g, x)
      ensures At(h, x) == At(g, x).(visited := At(g, x).visited || x in seen)
    {
    }
  }

  /** The breadth-first solver. It reports whether a route leads from the
      entry to the exit; when one does, it marks the cells of a shortest such
      route as on the path. Walls never change, and the visited flags it
      leaves set are those of `g` plus cells reachable by a route from the
      entry — all of them when the exit is not found. */
  method Solve(g: Grid, entry: Coord, exit: Coord) returns (found: bool, r: Grid, ghost route: seq<Coord>)
    requires WellFormed(g) && InBounds(g, entry) && InBounds(g, exit)
    ensures WellFormed(r) && r.rows == g.rows && r.cols == g.cols
    ensures forall x {:trigger At(r, x)} :: InBounds(g, x) ==> SameWalls(At(r, x), At(g, x))
    ensures found <==> Accessible(g, entry, exit)
    ensures found ==> RouteFromTo(g, route, entry, exit)
    ensures found ==> forall p :: RouteFromTo(g, p, entry, exit) ==> |route| <= |p|
    ensures forall x {:trigger At(r, x)} :: InBounds(g, x) ==>
              At(r, x).onPath == (At(g, x).onPath || (found && x in route))
    ensures At(r, entry).visited
    ensures forall x {:trigger At(r, x)} :: InBounds(g, x) && At(r, x).visited ==>
              At(g, x).visited || Accessible(g, entry, x)
    ensures !found ==> forall x {:trigger At(r, x)} :: InBounds(g, x) && Accessible(g, entry, x) ==> At(r, x).visited
  {
    var h := Put(g, entry, At(g, entry).(visited := true));
    var q := [entry];
    var pred: map<Coord, Coord> := map[];
    ghost var seen := {entry};
    ghost var done: set<Coord> := {};
    ghost var dist: map<Coord, nat> := map[entry := 0];
    AccessibleSelf(g, entry);
    while q != []
      invariant Tracks(g, h, seen) && Layered(g, entry, seen, pred, dist) && Minimal(g, entry, dist)
      invariant Queued(q, done, seen, dist) && Closed(g, done, seen) && exit !in done
      decreases |AllCells(g) - seen| + |q|
    {
      var cur := q[0];
      FrontierBound(g, entry, q, done, seen, pred, dist);
      ghost var q0 := q;
      q := q[1..];
      if cur == exit {
        r, route := MarkRoute(g, h, entry, exit, pred, seen, dist);
        FoundOutcome(g, h, r, route, entry, exit, seen, pred, dist);
        found := true;
        return;
      }
      ghost var seen0, dist0 := seen, dist;
      Dequeue(q0, done, seen, dist);
      h, q, pred, seen, dist := Expand(g, h, q, pred, seen, dist, entry, cur);
      Requeue(q0, done, seen0, dist0, q, seen, dist);
      ClosedAdd(g, done, seen0, seen, cur);
      done := done + {cur};
    }
    found := false;
    r := h;
    route := [];
    NotFoundOutcome(g, h, entry, exit, done, seen, pred, dist);
  }
}
