/** Locations and grids: the `GridLocation` and `Grid<bool>` values the maze
    engine works on.  `true` is a corridor, `false` a wall. */
module Grids {

  /** A cell location, compared by row and then column. */
  datatype Loc = Loc(row: int, col: int)

  /** A maze as a sequence of rows. */
  type Grid = seq<seq<bool>>

  /** A grid the engine accepts: at least one row and one column, every row as
      long as the first. */
  predicate IsGrid(g: Grid)
  {
    |g| >= 1 && |g[0]| >= 1 && forall r :: 0 <= r < |g| ==> |g[r]| == |g[0]|
  }

  function NumRows(g: Grid): nat
  {
    |g|
  }

  function NumCols(g: Grid): nat
  {
    if |g| == 0 then 0 else |g[0]|
  }

  /** The location names a cell of the grid. */
  predicate InBounds(g: Grid, l: Loc)
  {
    0 <= l.row < |g| && 0 <= l.col < |g[l.row]|
  }

  /** The location names a corridor cell. */
  predicate Open(g: Grid, l: Loc)
  {
    InBounds(g, l) && g[l.row][l.col]
  }

  /** The top-left corner, where every path starts. */
  const Start: Loc := Loc(0, 0)

  /** The bottom-right corner, where a solution ends. */
  function End(g: Grid): Loc
  {
    Loc(NumRows(g) - 1, NumCols(g) - 1)
  }

  /** The two locations differ by one in exactly one coordinate. */
  predicate Adjacent(a: Loc, b: Loc)
  {
    (a.row == b.row && (a.col == b.col + 1 || b.col == a.col + 1)) ||
    (a.col == b.col && (a.row == b.row + 1 || b.row == a.row + 1))
  }

  /** One legal move: to an orthogonal neighbour that is a corridor. */
  predicate IsMove(g: Grid, x: Loc, y: Loc)
  {
    Adjacent(x, y) && Open(g, y)
  }

  /** Every cell of the grid. */
  ghost function Cells(g: Grid): set<Loc>
  {
    set r, c | 0 <= r < |g| && 0 <= c < |g[r]| :: Loc(r, c)
  }

  /** A proper subset is smaller; a subset is no larger. */
  lemma {:induction false} SubsetCard<T>(a: set<T>, b: set<T>)
    requires a <= b
    ensures |a| <= |b|
    ensures a < b ==> |a| < |b|
    decreases a
  {
    if a != {} {
      var x :| x in a;
      SubsetCard(a - {x}, b - {x});
    } else if a < b {
      var y :| y in b;
    }
  }

  /** The cells of rows `0 .. k - 1`. */
  ghost function CellsBelow(g: Grid, k: nat): set<Loc>
    requires k <= |g|
  {
    set r, c | 0 <= r < k && 0 <= c < |g[r]| :: Loc(r, c)
  }

  ghost function RowCells(r: int, n: nat): set<Loc>
  {
    set c | 0 <= c < n :: Loc(r, c)
  }

  lemma {:induction false} RowCellsCount(r: int, n: nat)
    ensures |RowCells(r, n)| == n
  {
    if n > 0 {
      assert RowCells(r, n) == RowCells(r, n - 1) + {Loc(r, n - 1)};
      RowCellsCount(r, n - 1);
    }
  }

  lemma {:induction false} CellsBelowCount(g: Grid, k: nat)
    requires IsGrid(g) && k <= |g|
    ensures |CellsBelow(g, k)| == k * |g[0]|
  {
    if k > 0 {
      var below, row := CellsBelow(g, k - 1), RowCells(k - 1, |g[0]|);
      forall l | l in CellsBelow(g, k) ensures l in below + row {
        assert |g[l.row]| == |g[0]|;
      }
      forall l | l in row ensures l in CellsBelow(g, k) {
        assert |g[k - 1]| == |g[0]|;
      }
      assert CellsBelow(g, k) == below + row;
      assert below * row == {};
      CellsBelowCount(g, k - 1);
      RowCellsCount(k - 1, |g[0]|);
      assert k * |g[0]| == (k - 1) * |g[0]| + |g[0]|;
    }
  }

  /** A grid has numRows * numCols cells. */
  lemma CellsCount(g: Grid)
    requires IsGrid(g)
    ensures |Cells(g)| == NumRows(g) * NumCols(g)
    ensures forall l :: l in Cells(g) <==> InBounds(g, l)
  {
    assert Cells(g) == CellsBelow(g, |g|);
    CellsBelowCount(g, |g|);
  }
}
