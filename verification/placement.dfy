/** Boundary placement: how random draws become grid dimensions and how a
    draw is turned into a perimeter cell for the entry and the exit. */
module Placement {
  import opened MazeGrid

  datatype Option<T> = None | Some(value: T)

  /** A side length from one raw draw `r`: 5 plus `r` modulo 16. */
  function Dimension(r: nat): (n: nat)
    ensures 5 <= n <= 20
    ensures n - 5 == r % 16
  {
    5 + r % 16
  }

  /** Every side length from 5 to 20 comes out of some draw. */
  lemma DimensionOnto(n: nat)
    requires 5 <= n <= 20
    ensures exists r: nat :: Dimension(r) == n
  {
    assert Dimension(n - 5) == n;
  }

  /** A cell of the outer ring: inside the grid and on its first or last row or column. */
  predicate OnPerimeter(rows: int, cols: int, c: Coord) {
    Inside(rows, cols, c) && (c.row == 0 || c.row == rows - 1 || c.col == 0 || c.col == cols - 1)
  }

  predicate IsCorner(rows: int, cols: int, c: Coord) {
    (c.row == 0 || c.row == rows - 1) && (c.col == 0 || c.col == cols - 1)
  }

  /** The cell selected by position `k` of the walk round the border: the top
      row left to right, the right column from row 0 downwards, the bottom row
      right to left, then the left column upwards. */
  function PerimeterCell(rows: int, cols: int, k: int): (c: Coord)
    requires rows >= 1 && cols >= 1
    requires 0 <= k < 2 * rows + 2 * cols
    ensures OnPerimeter(rows, cols, c)
  {
    if k < cols then Coord(0, k)
    else if k < cols + rows then Coord(k - cols, cols - 1)
    else if k < 2 * cols + rows then Coord(rows - 1, cols - 1 - (k - cols - rows))
    else Coord(rows - 1 - (k - 2 * cols - rows), 0)
  }

  /** The cell a raw draw selects: the draw is first reduced modulo the walk length. */
  function Place(rows: int, cols: int, draw: nat): (c: Coord)
    requires rows >= 1 && cols >= 1
    ensures OnPerimeter(rows, cols, c)
    ensures exists k :: 0 <= k < 2 * rows + 2 * cols && c == PerimeterCell(rows, cols, k)
  {
    PerimeterCell(rows, cols, draw % (2 * rows + 2 * cols))
  }

  /** The mapping at the start of the walk: position 0 is the top-left corner,
      and positions `cols - 1` and `cols` both give the top-right corner
      because the right-hand column is walked from row 0. On a 7 x 7 grid
      positions 6 and 7 both give (0, 6). */
  lemma PerimeterCellStart(rows: int, cols: int)
    requires rows >= 1 && cols >= 1
    ensures PerimeterCell(rows, cols, 0) == Coord(0, 0)
    ensures PerimeterCell(rows, cols, cols - 1) == Coord(0, cols - 1)
    ensures PerimeterCell(rows, cols, cols) == Coord(0, cols - 1)
    ensures PerimeterCell(7, 7, 6) == Coord(0, 6) && PerimeterCell(7, 7, 7) == Coord(0, 6)
  {
  }

  /** Every perimeter cell is selected by some position of the walk. */
  lemma PerimeterCellOnto(rows: int, cols: int, c: Coord)
    requires rows >= 1 && cols >= 1 && OnPerimeter(rows, cols, c)
    ensures exists k :: 0 <= k < 2 * rows + 2 * cols && PerimeterCell(rows, cols, k) == c
  {
    var k :=
      if c.row == 0 then c.col
      else if c.col == cols - 1 then cols + c.row
      else if c.row == rows - 1 then cols + rows + (cols - 1 - c.col)
      else 2 * cols + rows + (rows - 1 - c.row);
    assert PerimeterCell(rows, cols, k) == c;
  }

  /** Two different positions give the same cell only at a corner. */
  lemma PerimeterCellCollisions(rows: int, cols: int, k1: int, k2: int)
    requires rows >= 2 && cols >= 2
    requires 0 <= k1 < k2 < 2 * rows + 2 * cols
    requires PerimeterCell(rows, cols, k1) == PerimeterCell(rows, cols, k2)
    ensures IsCorner(rows, cols, PerimeterCell(rows, cols, k1))
  {
  }

  /** Each of the four corners is selected by two positions, so a corner is
      drawn twice as often as any other perimeter cell. */
  lemma CornersTwice(rows: int, cols: int, c: Coord)
    requires rows >= 1 && cols >= 1 && Inside(rows, cols, c) && IsCorner(rows, cols, c)
    ensures exists k1, k2 :: 0 <= k1 < k2 < 2 * rows + 2 * cols &&
              PerimeterCell(rows, cols, k1) == c && PerimeterCell(rows, cols, k2) == c
  {
    var n := 2 * rows + 2 * cols;
    if c == Coord(0, 0) {
      assert PerimeterCell(rows, cols, 0) == c && PerimeterCell(rows, cols, n - 1) == c;
    } else if c == Coord(0, cols - 1) {
      assert PerimeterCell(rows, cols, cols - 1) == c && PerimeterCell(rows, cols, cols) == c;
    } else if c == Coord(rows - 1, cols - 1) {
      assert PerimeterCell(rows, cols, cols + rows - 1) == c && PerimeterCell(rows, cols, cols + rows) == c;
    } else {
      assert PerimeterCell(rows, cols, 2 * cols + rows - 1) == c && PerimeterCell(rows, cols, 2 * cols + rows) == c;
    }
  }

  /** The exit retry loop over a finite supply of draws: the first draw whose
      cell differs from the entry gives the exit; `None` when every draw
      supplied lands on the entry again. */
  function PickExit(rows: int, cols: int, entry: Coord, draws: seq<nat>): (r: Option<Coord>)
    requires rows >= 1 && cols >= 1
    ensures r.Some? <==> exists i :: 0 <= i < |draws| && Place(rows, cols, draws[i]) != entry
    ensures r.Some? ==> r.value != entry && OnPerimeter(rows, cols, r.value)
    ensures r.Some? ==> exists i :: 0 <= i < |draws| && r.value == Place(rows, cols, draws[i]) &&
                          forall j :: 0 <= j < i ==> Place(rows, cols, draws[j]) == entry
  {
    if |draws| == 0 then None
    else
      var c := Place(rows, cols, draws[0]);
      if c != entry then Some(c)
      else
        var r := PickExit(rows, cols, entry, draws[1..]);
        assert forall i :: 1 <= i < |draws| ==> draws[i] == draws[1..][i - 1];
        r
  }
}
