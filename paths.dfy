/** Paths through a maze (`Vector<GridLocation>`) and what it means for one to
    be a solution. */
module Paths {

  import opened Grids

  function Last(p: seq<Loc>): Loc
    requires |p| > 0
  {
    p[|p| - 1]
  }

  /** No location occurs twice. */
  predicate Distinct(p: seq<Loc>)
  {
    forall i, j :: 0 <= i < j < |p| ==> p[i] != p[j]
  }

  /** Each location is a legal move from the one before it. */
  predicate Steps(g: Grid, p: seq<Loc>)
  {
    forall i :: 0 <= i < |p| - 1 ==> IsMove(g, p[i], p[i + 1])
  }

  /** A non-empty path from the start that takes only legal moves (it may come
      back to a location it has visited). */
  predicate IsWalk(g: Grid, p: seq<Loc>)
  {
    |p| > 0 && p[0] == Start && Steps(g, p)
  }

  /** A solution: a loop-free walk from the start to the end.  Like
      validatePath, it asks nothing of the start cell itself, which may be a
      wall. */
  predicate IsSolution(g: Grid, p: seq<Loc>)
  {
    IsWalk(g, p) && Last(p) == End(g) && Distinct(p)
  }

  ghost predicate Solvable(g: Grid)
  {
    exists p :: IsSolution(g, p)
  }

  /** The paths `p + [y]`, one for each `y` of `ys`, in that order. */
  function Extensions(p: seq<Loc>, ys: seq<Loc>): seq<seq<Loc>>
  {
    seq(|ys|, k requires 0 <= k < |ys| => p + [ys[k]])
  }

  /** A set of locations that holds the start and that no legal move leaves. */
  ghost predicate Closed(g: Grid, reach: set<Loc>)
  {
    Start in reach && forall x, y :: x in reach && IsMove(g, x, y) ==> y in reach
  }

  lemma {:induction false} WalkInBounds(g: Grid, p: seq<Loc>, i: int)
    requires IsGrid(g) && IsWalk(g, p) && 0 <= i < |p|
    ensures InBounds(g, p[i])
  {
    if i > 0 {
      assert IsMove(g, p[i - 1], p[i]);
    }
  }

  /** A walk never leaves a closed set. */
  lemma {:induction false} WalkStaysInside(g: Grid, reach: set<Loc>, p: seq<Loc>, i: int)
    requires Closed(g, reach) && IsWalk(g, p) && 0 <= i < |p|
    ensures p[i] in reach
  {
    if i > 0 {
      WalkStaysInside(g, reach, p, i - 1);
      assert IsMove(g, p[i - 1], p[i]);
    }
  }

  /** So when a closed set misses the end, the maze has no solution. */
  lemma NoSolutionOutside(g: Grid, reach: set<Loc>)
    requires Closed(g, reach) && End(g) !in reach
    ensures !Solvable(g)
  {
    forall p | IsSolution(g, p) ensures false {
      WalkStaysInside(g, reach, p, |p| - 1);
    }
  }

  /** On a one-cell grid the only walk is `[Start]`, and it is a solution. */
  lemma SingleCell(g: Grid, p: seq<Loc>)
    requires IsGrid(g) && NumRows(g) == 1 && NumCols(g) == 1
    ensures IsWalk(g, p) ==> p == [Start]
    ensures IsSolution(g, [Start])
  {
    NoMoveOnSingleCell(g);
    if IsWalk(g, p) {
      FirstStep(g, p);
    }
  }

  lemma FirstStep(g: Grid, p: seq<Loc>)
    requires IsWalk(g, p)
    ensures |p| >= 2 ==> IsMove(g, Start, p[1])
  {
  }

  lemma NoMoveOnSingleCell(g: Grid)
    requires IsGrid(g) && NumRows(g) == 1 && NumCols(g) == 1
    ensures forall x, y :: InBounds(g, x) ==> !IsMove(g, x, y)
  {
  }

  /** On a larger grid the end differs from the start. */
  lemma EndIsNotStart(g: Grid)
    requires IsGrid(g)
    ensures End(g) == Start <==> NumRows(g) == 1 && NumCols(g) == 1
  {
  }

  /** The cells of a sequence. */
  function Elems(ys: seq<Loc>): set<Loc>
  {
    set y | y in ys
  }

  /** A loop-free sequence has as many cells as entries. */
  lemma {:induction false} DistinctCard(ys: seq<Loc>)
    requires Distinct(ys)
    ensures |Elems(ys)| == |ys|
  {
    if ys != [] {
      var init := ys[..|ys| - 1];
      assert Distinct(init);
      assert Elems(ys) == Elems(init) + {Last(ys)};
      assert Last(ys) !in Elems(init);
      DistinctCard(init);
    }
  }
}
