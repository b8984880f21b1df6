/** Small mazes read through the loader and solved, and the solvers' result
    as their comments document it: the empty path when the maze has no
    solution. */
module Scenarios {

  import opened Grids
  import opened Moves
  import opened Paths
  import opened Validate
  import opened Loader
  import opened Bfs
  import opened Dfs

  /** Reads a two-line maze file of two columns that the loader accepts. */
  method ReadTwoByTwo(row0: string, row1: string) returns (g: Grid)
    requires |row0| == 2 && |row1| == 2
    requires MazeChar(row0[0]) && MazeChar(row0[1]) && MazeChar(row1[0]) && MazeChar(row1[1])
    ensures g == [[row0[0] == '-', row0[1] == '-'], [row1[0] == '-', row1[1] == '-']]
  {
    var lines := [row0, row1];
    var fault;
    g, fault := ReadMazeLines(lines, [[false]]);
    assert RowOk(lines, 0) && RowOk(lines, 1) by {
      assert forall c :: 0 <= c < 2 ==> MazeChar(lines[0][c]) && MazeChar(lines[1][c]);
    }
    LoadSucceeds(lines);
    LoadedCells(lines);
    SameMaze(g, [[row0[0] == '-', row0[1] == '-'], [row1[0] == '-', row1[1] == '-']]);
  }

  /** On a 2 x 2 maze, a loop-free path from the start to the end passes
      through exactly one of the two other cells. */
  lemma TwoByTwoSolutions(g: Grid, p: seq<Loc>)
    requires IsGrid(g) && NumRows(g) == 2 && NumCols(g) == 2 && IsSolution(g, p)
    ensures p == [Start, Loc(0, 1), Loc(1, 1)] || p == [Start, Loc(1, 0), Loc(1, 1)]
  {
    assert |p| >= 2 by {
      EndIsNotStart(g);
    }
    WalkInBounds(g, p, 1);
    FirstStep(g, p);
    assert p[1] == Loc(0, 1) || p[1] == Loc(1, 0);
    SolutionCells(g, p);
    assert IsMove(g, p[1], p[2]);
  }

  /** A solution of a 2 x 2 maze has three cells: four would visit every
      cell, and the last step into (1, 1) would start from a cell already used
      by the second. */
  lemma SolutionCells(g: Grid, p: seq<Loc>)
    requires IsGrid(g) && NumRows(g) == 2 && NumCols(g) == 2 && IsSolution(g, p) && |p| >= 3
    ensures |p| == 3
  {
    WalkInBounds(g, p, |p| - 1);
    assert forall i :: 0 <= i < |p| ==> InBounds(g, p[i]) by {
      forall i | 0 <= i < |p| ensures InBounds(g, p[i]) {
        WalkInBounds(g, p, i);
      }
    }
    assert Elems(p) <= {Loc(0, 0), Loc(0, 1), Loc(1, 0), Loc(1, 1)};
    DistinctCard(p);
    SubsetCard(Elems(p), {Loc(0, 0), Loc(0, 1), Loc(1, 0), Loc(1, 1)});
    assert IsMove(g, p[|p| - 2], p[|p| - 1]);
    assert IsMove(g, p[0], p[1]);
    if |p| == 4 {
      assert IsMove(g, p[1], p[2]);
    }
  }

  /** `["-@", "--"]`: both solvers go around the wall in the top right. */
  method WallTopRight() returns (bfs: seq<Loc>, dfs: seq<Loc>)
    ensures bfs == [Start, Loc(1, 0), Loc(1, 1)]
    ensures dfs == [Start, Loc(1, 0), Loc(1, 1)]
  {
    var g := ReadTwoByTwo("-@", "--");
    assert IsSolution(g, [Start, Loc(1, 0), Loc(1, 1)]);
    ghost var enq;
    bfs, enq := SolveMazeBFS(g);
    TwoByTwoSolutions(g, bfs);
    dfs, enq := SolveMazeDFS(g);
    ValidationCompletes(g, dfs);
    TwoByTwoSolutions(g, dfs);
  }

  /** `["@-", "--"]`: the start is a wall, yet the solvers search from it and
      validatePath accepts what they return. */
  method WalledStart() returns (bfs: seq<Loc>, dfs: seq<Loc>)
    ensures bfs == [Start, Loc(0, 1), Loc(1, 1)] || bfs == [Start, Loc(1, 0), Loc(1, 1)]
    ensures dfs == [Start, Loc(0, 1), Loc(1, 1)] || dfs == [Start, Loc(1, 0), Loc(1, 1)]
    ensures Validation([[false, true], [true, true]], bfs) == Completes
    ensures Validation([[false, true], [true, true]], dfs) == Completes
  {
    var g := ReadTwoByTwo("@-", "--");
    assert IsSolution(g, [Start, Loc(1, 0), Loc(1, 1)]);
    ghost var enq;
    bfs, enq := SolveMazeBFS(g);
    TwoByTwoSolutions(g, bfs);
    dfs, enq := SolveMazeDFS(g);
    ValidationCompletes(g, dfs);
    TwoByTwoSolutions(g, dfs);
  }

  /** The start of a 2 x 2 maze whose two neighbours of the start are walls
      has nowhere to go. */
  lemma Boxed(g: Grid, p: seq<Loc>)
    requires IsGrid(g) && NumRows(g) == 2 && NumCols(g) == 2 && !g[0][1] && !g[1][0]
    requires IsWalk(g, p)
    ensures p == [Start]
  {
    FirstStep(g, p);
  }

  /** `["--"]` with the path `[(0, 2)]`: the start of the path is off the grid,
      but its only guarded read, to the left, is inside, so validatePath gets
      past generateValidMoves and raises the endpoint error. */
  lemma OffGridStart()
    ensures Validation([[true, true]], [Loc(0, 2)]) == Raises(BadEndpoints)
  {
    var g := [[true, true]];
    RangeError(g, Loc(0, 2));
    assert GuardedReads(g, Loc(0, 2)) == [Loc(0, 1)];
    ValidationRaises(g, [Loc(0, 2)]);
  }

  /** `["-@", "@-"]`: no solution, and as written both solvers return the
      one-cell path of the seed, not the empty path their comments promise. */
  method Disconnected() returns (bfs: seq<Loc>, dfs: seq<Loc>)
    ensures bfs == [Start] && dfs == [Start]
  {
    var g := ReadTwoByTwo("-@", "@-");
    ghost var enq;
    bfs, enq := SolveMazeBFS(g);
    Boxed(g, bfs);
    dfs, enq := SolveMazeDFS(g);
    Boxed(g, dfs);
  }

  /** solveMazeBFS as documented: the empty path when there is no solution,
      otherwise a shortest one that validatePath accepts. */
  method SolveMazeBFSAsDocumented(g: Grid) returns (path: seq<Loc>)
    requires IsGrid(g)
    ensures path == [] <==> !Solvable(g)
    ensures path != [] ==> IsSolution(g, path) && Validation(g, path) == Completes
    ensures path != [] ==> forall q :: IsSolution(g, q) ==> |path| <= |q|
  {
    var found;
    ghost var enq;
    found, enq := SolveMazeBFS(g);
    path := if Last(found) == End(g) then found else [];
    ValidationCompletes(g, path);
  }

  /** solveMazeDFS as documented: the empty path when there is no solution,
      otherwise one that validatePath accepts. */
  method SolveMazeDFSAsDocumented(g: Grid) returns (path: seq<Loc>)
    requires IsGrid(g)
    ensures path == [] <==> !Solvable(g)
    ensures path != [] ==> IsSolution(g, path) && Validation(g, path) == Completes
  {
    var found;
    ghost var enq;
    found, enq := SolveMazeDFS(g);
    path := if Last(found) == End(g) then found else [];
    ValidationCompletes(g, path);
  }

  /** `["-@", "@-"]` with the documented solvers: the empty path. */
  method DisconnectedAsDocumented() returns (bfs: seq<Loc>, dfs: seq<Loc>)
    ensures bfs == [] && dfs == []
  {
    var g := ReadTwoByTwo("-@", "@-");
    bfs := SolveMazeBFSAsDocumented(g);
    if bfs != [] {
      Boxed(g, bfs);
    }
    dfs := SolveMazeDFSAsDocumented(g);
    if dfs != [] {
      Boxed(g, dfs);
    }
  }
}
