/** solveMazeDFS: depth-first search over whole paths, with a stack whose top
    is the end of the sequence. */
module Dfs {

  import opened Grids
  import opened Moves
  import opened Paths
  import opened Validate
  import opened Search

  /** solveMazeDFS.  The result is never empty: when the stack runs out it is
      the last path popped.  It ends at the end cell exactly when the maze has
      a solution, and then validatePath accepts it.  `enqueued` counts the
      pushes after the seed. */
  method SolveMazeDFS(g: Grid) returns (path: seq<Loc>, ghost enqueued: nat)
    requires IsGrid(g)
    ensures IsWalk(g, path)
    ensures Last(path) == End(g) <==> Solvable(g)
    ensures Last(path) == End(g) ==> Validation(g, path) == Completes
    ensures Last(path) != End(g) ==> Validation(g, path) == Raises(BadEndpoints)
    ensures NumRows(g) == 1 && NumCols(g) == 1 ==> path == [Start]
    ensures enqueued <= NumRows(g) * NumCols(g)
  {
    var newMaze := new bool[|g|, |g[0]|]((r, c) => if 0 <= r < |g| && 0 <= c < |g[r]| then g[r][c] else false);
    var end, start := End(g), Start;
    path := [start];
    var allPaths := [path];
    ghost var claimed: set<Loc> := {};
    enqueued := 0;
    ghost var cells := NumRows(g) * NumCols(g);
    SearchInit(g);
    ClaimBound(g, {});
    while allPaths != []
      invariant ClaimsMatch(g, newMaze, claimed)
      invariant SearchInv(g, allPaths, claimed)
      invariant enqueued == |claimed|
      invariant IsWalk(g, path) && (Last(path) == end ==> allPaths == [path])
      invariant enqueued <= cells
      decreases cells - enqueued, |allPaths|
    {
      var frontier := allPaths;
      path := allPaths[|allPaths| - 1];
      allPaths := allPaths[..|allPaths| - 1];
      PopSplit(frontier);
      assert Tracked(g, claimed, path);
      var lastLoc := path[|path| - 1];
      if lastLoc == end {
        SearchFound(g, frontier, claimed, path);
        SolverResult(g, path);
        return;
      }
      WalkInBounds(g, path, |path| - 1);
      var added, ys := Expand(g, newMaze, path, claimed);
      SearchStep(g, frontier, path, allPaths, claimed, ys);
      ClaimStep(claimed, ys);
      ClaimBound(g, claimed + Elems(ys));
      allPaths := allPaths + added;
      claimed := claimed + Elems(ys);
      enqueued := enqueued + |ys|;
    }
    SearchExhausted(g, claimed);
    SolverResult(g, path);
  }
}
