/** What solveMazeBFS and solveMazeDFS share: the claim-on-enqueue working copy
    `newMaze`, the expansion of one path, and the frontier invariant, which
    speaks only of membership and so holds for the queue and the stack alike. */
module Search {

  import opened Grids
  import opened Moves
  import opened Paths
  import opened Validate

  /** The cells a solver has reached: those it claimed, and the start, which
      the seed uses without claiming it (the first path that steps back onto
      the start claims it). */
  function Reached(claimed: set<Loc>): set<Loc>
  {
    claimed + {Start}
  }

  /** Every move out of `x` leads to a reached cell. */
  ghost predicate Expanded(g: Grid, claimed: set<Loc>, x: Loc)
  {
    forall y :: IsMove(g, x, y) ==> y in Reached(claimed)
  }

  /** `newMaze` is the maze with every claimed cell cleared; claimed cells are
      corridors. */
  ghost predicate ClaimsMatch(g: Grid, newMaze: array2<bool>, claimed: set<Loc>)
    reads newMaze
  {
    IsGrid(g) && newMaze.Length0 == |g| && newMaze.Length1 == |g[0]| &&
    (forall y :: y in claimed ==> Open(g, y)) &&
    forall r, c :: 0 <= r < |g| && 0 <= c < |g[0]| ==> newMaze[r, c] == (g[r][c] && Loc(r, c) !in claimed)
  }

  predicate EndsAt(p: seq<Loc>, x: Loc)
  {
    |p| > 0 && Last(p) == x
  }

  /** A path that has returned to the start: loop-free up to its last cell,
      which is the start again. */
  predicate BacksToStart(p: seq<Loc>)
  {
    |p| > 1 && Last(p) == Start && Distinct(p[..|p| - 1])
  }

  /** A path as the solvers keep it: a walk whose later cells are all claimed,
      loop-free unless it has stepped back onto the start. */
  ghost predicate Tracked(g: Grid, claimed: set<Loc>, p: seq<Loc>)
  {
    IsWalk(g, p) && (forall i :: 1 <= i < |p| ==> p[i] in claimed) &&
    (Distinct(p) || BacksToStart(p))
  }

  /** The frontier invariant of both solvers. */
  ghost predicate SearchInv(g: Grid, frontier: seq<seq<Loc>>, claimed: set<Loc>)
  {
    (forall p :: p in frontier ==> Tracked(g, claimed, p)) &&
    // a reached cell has been expanded, or a path waiting in the frontier ends there
    (forall x :: x in Reached(claimed) ==> Expanded(g, claimed, x) || exists p :: p in frontier && EndsAt(p, x)) &&
    // no path to the end has been taken out of the frontier
    (End(g) in Reached(claimed) ==> exists p :: p in frontier && EndsAt(p, End(g))) &&
    // the start is expanded before any longer path exists
    (forall p :: p in frontier && |p| > 1 ==> Expanded(g, claimed, Start))
  }

  /** The inner `for` loop of both solvers over the moves out of the last cell
      of `path`: each move whose cell is still set in `newMaze` is claimed
      (cleared there) and yields `path` extended by it.  The moves are taken in
      an arbitrary order.  `ys` lists the cells claimed, in that order: exactly
      the moves not claimed before. */
  method Expand(g: Grid, newMaze: array2<bool>, path: seq<Loc>, ghost claimed: set<Loc>)
    returns (added: seq<seq<Loc>>, ghost ys: seq<Loc>)
    requires ClaimsMatch(g, newMaze, claimed)
    requires |path| > 0 && InBounds(g, Last(path))
    modifies newMaze
    ensures ClaimsMatch(g, newMaze, claimed + Elems(ys))
    ensures added == Extensions(path, ys)
    ensures Distinct(ys)
    ensures forall y :: y in ys <==> IsMove(g, Last(path), y) && y !in claimed
  {
    var lastLoc := Last(path);
    var moves := GenerateValidMoves(g, lastLoc).value;
    var remaining := moves;
    added, ys := [], [];
    while remaining != {}
      invariant remaining <= moves
      invariant Distinct(ys)
      invariant forall y :: y in ys <==> y in moves && y !in remaining && y !in claimed
      invariant added == Extensions(path, ys)
      invariant ClaimsMatch(g, newMaze, claimed + Elems(ys))
      decreases remaining
    {
      var temp :| temp in remaining;
      remaining := remaining - {temp};
      if temp != lastLoc && newMaze[temp.row, temp.col] {
        newMaze[temp.row, temp.col] := false;
        added := added + [path + [temp]];
        ys := ys + [temp];
      }
    }
  }

  /** The frontier invariant holds of the seed `[[Start]]`. */
  lemma SearchInit(g: Grid)
    requires IsGrid(g)
    ensures SearchInv(g, [[Start]], {})
  {
    assert EndsAt([Start], Start);
  }

  /** Taking `p` out of the frontier leaves `rest`; expanding it claims `ys`,
      every unclaimed move out of its last cell; the invariant holds of `rest`
      followed by the extensions of `p`. */
  lemma SearchStep(g: Grid, frontier: seq<seq<Loc>>, p: seq<Loc>, rest: seq<seq<Loc>>, claimed: set<Loc>, ys: seq<Loc>)
    requires IsGrid(g) && SearchInv(g, frontier, claimed)
    requires p in frontier && forall q :: q in frontier <==> q == p || q in rest
    requires |p| > 0 && Last(p) != End(g)
    requires Distinct(ys) && forall y :: y in ys <==> IsMove(g, Last(p), y) && y !in claimed
    ensures SearchInv(g, rest + Extensions(p, ys), claimed + Elems(ys))
  {
    var claimed' := claimed + Elems(ys);
    var frontier' := rest + Extensions(p, ys);
    assert Tracked(g, claimed, p);
    forall q | q in frontier' ensures Tracked(g, claimed', q) {
      if q in rest {
        assert Tracked(g, claimed, q);
      } else {
        var k :| 0 <= k < |ys| && q == p + [ys[k]];
        ExtensionTracked(g, claimed, p, ys[k]);
      }
    }
    var x := Last(p);
    assert Expanded(g, claimed', x);
    forall z | z in Reached(claimed') ensures Expanded(g, claimed', z) || exists q :: q in frontier' && EndsAt(q, z) {
      if z in ys {
        var k :| 0 <= k < |ys| && ys[k] == z;
        assert Extensions(p, ys)[k] in frontier' && EndsAt(Extensions(p, ys)[k], z);
      } else if z != x && !Expanded(g, claimed, z) {
        var q :| q in frontier && EndsAt(q, z);
        assert q in rest;
      }
    }
    if End(g) in Reached(claimed') {
      if End(g) in ys {
        var k :| 0 <= k < |ys| && ys[k] == End(g);
        assert Extensions(p, ys)[k] in frontier' && EndsAt(Extensions(p, ys)[k], End(g));
      } else {
        var q :| q in frontier && EndsAt(q, End(g));
        assert q in rest;
      }
    }
    forall q | q in frontier' && |q| > 1 ensures Expanded(g, claimed', Start) {
      if q !in rest && |p| == 1 {
        assert x == Start;
      }
    }
  }

  /** One extension keeps a path tracked: the new cell was unclaimed, so it is
      new to the path unless it is the start.  A path that steps back onto the
      start is a dead end: every move out of the start is already reached, and
      stays so whatever is claimed later. */
  lemma ExtensionTracked(g: Grid, claimed: set<Loc>, p: seq<Loc>, y: Loc)
    requires IsGrid(g) && Tracked(g, claimed, p)
    requires IsMove(g, Last(p), y) && y !in claimed
    requires |p| > 1 ==> Expanded(g, claimed, Start)
    ensures forall c :: y in c ==> Tracked(g, claimed + c, p + [y])
    ensures y == Start ==> forall c :: Expanded(g, claimed + c, Start)
  {
    var q := p + [y];
    assert q[..|p|] == p;
    assert BacksToStart(p) ==> IsMove(g, Start, y);
    assert Distinct(p);
    if y == Start {
      assert BacksToStart(q);
      assert |p| > 1;
    } else {
      forall i | 0 <= i < |p| ensures p[i] != y {
        if i > 0 {
          assert p[i] in claimed;
        }
      }
      assert Distinct(q);
    }
  }

  /** An empty frontier means the reached cells are closed under moves and miss
      the end: the maze has no solution. */
  lemma SearchExhausted(g: Grid, claimed: set<Loc>)
    requires IsGrid(g) && SearchInv(g, [], claimed)
    ensures !Solvable(g)
  {
    assert Closed(g, Reached(claimed));
    NoSolutionOutside(g, Reached(claimed));
  }

  /** A frontier path that ends at the end is a solution. */
  lemma SearchFound(g: Grid, frontier: seq<seq<Loc>>, claimed: set<Loc>, p: seq<Loc>)
    requires IsGrid(g) && SearchInv(g, frontier, claimed)
    requires p in frontier && EndsAt(p, End(g))
    ensures IsSolution(g, p)
  {
    assert Tracked(g, claimed, p);
    if !Distinct(p) {
      EndIsNotStart(g);
      if NumRows(g) == 1 && NumCols(g) == 1 {
        SingleCell(g, p);
      }
    }
  }

  /** Claiming `ys`, none of them claimed before, adds `|ys|` claims. */
  lemma ClaimStep(claimed: set<Loc>, ys: seq<Loc>)
    requires Distinct(ys) && forall y :: y in ys ==> y !in claimed
    ensures |claimed + Elems(ys)| == |claimed| + |ys|
  {
    DistinctCard(ys);
    assert claimed * Elems(ys) == {};
  }

  /** Only cells of the grid are claimed, so at most numRows * numCols. */
  lemma ClaimBound(g: Grid, claimed: set<Loc>)
    requires IsGrid(g) && forall y :: y in claimed ==> Open(g, y)
    ensures |claimed| <= NumRows(g) * NumCols(g)
  {
    CellsCount(g);
    SubsetCard(claimed, Cells(g));
  }

  /** Popping the top of the stack leaves the rest. */
  lemma PopSplit(f: seq<seq<Loc>>)
    requires f != []
    ensures forall q :: q in f <==> q == f[|f| - 1] || q in f[..|f| - 1]
  {
    assert f == f[..|f| - 1] + [f[|f| - 1]];
  }

  /** Dequeuing the front of the queue leaves the rest. */
  lemma DequeueSplit(f: seq<seq<Loc>>)
    requires f != []
    ensures forall q :: q in f <==> q == f[0] || q in f[1..]
  {
    assert f == [f[0]] + f[1..];
  }

  /** What both returns of the solvers establish about the returned walk. */
  lemma SolverResult(g: Grid, path: seq<Loc>)
    requires IsGrid(g) && IsWalk(g, path)
    requires Last(path) == End(g) ==> IsSolution(g, path)
    requires Last(path) != End(g) ==> !Solvable(g)
    ensures Last(path) == End(g) <==> Solvable(g)
    ensures Last(path) == End(g) ==> Validation(g, path) == Completes
    ensures Last(path) != End(g) ==> Validation(g, path) == Raises(BadEndpoints)
    ensures NumRows(g) == 1 && NumCols(g) == 1 ==> path == [Start]
  {
    ValidationCompletes(g, path);
    if NumRows(g) == 1 && NumCols(g) == 1 {
      SingleCell(g, path);
    }
  }
}
