/** solveMazeBFS: breadth-first search over whole paths, with a queue whose
    front is the start of the sequence. */
module Bfs {

  import opened Grids
  import opened Moves
  import opened Paths
  import opened Validate
  import opened Search

  /** Every move out of `x` leads to a cell with a level, at most one more than
      the level of `x`. */
  ghost predicate Graded(g: Grid, lvl: map<Loc, nat>, x: Loc)
  {
    x in lvl && forall y :: IsMove(g, x, y) ==> y in lvl && lvl[y] <= lvl[x] + 1
  }

  /** The queue is ordered by length, with lengths at most one apart; each
      reached cell carries the level (cells minus one) of the path that reached
      it first, paths that did not step back onto the start end at their own
      level, and a cell is graded unless a path waiting at its level ends there. */
  ghost predicate LevelInv(g: Grid, f: seq<seq<Loc>>, claimed: set<Loc>, lvl: map<Loc, nat>)
  {
    lvl.Keys == Reached(claimed) && lvl[Start] == 0 && ByLength(f) &&
    (f != [] ==> forall z :: z in lvl ==> lvl[z] <= |f[0]|) &&
    AtOwnLevel(f, lvl) && GradedOrWaiting(g, f, lvl)
  }

  /** The queue is ordered by length, with lengths at most one apart. */
  ghost predicate ByLength(f: seq<seq<Loc>>)
  {
    (forall i, j :: 0 <= i <= j < |f| ==> |f[i]| <= |f[j]|) &&
    (forall j :: 0 <= j < |f| ==> |f[j]| <= |f[0]| + 1)
  }

  /** The paths that did not step back onto the start end at their own level. */
  ghost predicate AtOwnLevel(f: seq<seq<Loc>>, lvl: map<Loc, nat>)
  {
    forall j :: 0 <= j < |f| && |f[j]| > 0 && (|f[j]| == 1 || Last(f[j]) != Start) ==>
      Last(f[j]) in lvl && lvl[Last(f[j])] == |f[j]| - 1
  }

  /** Every reached cell is graded, or a path waiting at its level ends there. */
  ghost predicate GradedOrWaiting(g: Grid, f: seq<seq<Loc>>, lvl: map<Loc, nat>)
  {
    forall z :: z in lvl ==> Graded(g, lvl, z) || exists j :: 0 <= j < |f| && EndsAt(f[j], z) && |f[j]| - 1 == lvl[z]
  }

  /** The levels after claiming `ys` from a path of `d` cells. */
  function Promote(lvl: map<Loc, nat>, ys: seq<Loc>, d: nat): map<Loc, nat>
  {
    lvl + map y | y in ys && y !in lvl :: d
  }

  lemma LevelInit(g: Grid)
    requires IsGrid(g)
    ensures LevelInv(g, [[Start]], {}, map[Start := 0])
  {
    assert EndsAt([Start], Start);
  }

  /** Levels only grow, so a graded cell stays graded. */
  lemma GradedGrows(g: Grid, lvl: map<Loc, nat>, lvl': map<Loc, nat>, z: Loc)
    requires Graded(g, lvl, z)
    requires forall y :: y in lvl ==> y in lvl' && lvl'[y] == lvl[y]
    ensures Graded(g, lvl', z)
  {
  }

  /** Dequeuing the front path `f[0]`, expanding it into the fresh cells `ys`
      and enqueuing the extensions keeps the level invariant, with the fresh
      cells at the level of the extensions. */
  lemma LevelStep(g: Grid, f: seq<seq<Loc>>, claimed: set<Loc>, lvl: map<Loc, nat>, ys: seq<Loc>)
    returns (lvl': map<Loc, nat>)
    requires IsGrid(g) && f != [] && SearchInv(g, f, claimed) && LevelInv(g, f, claimed, lvl)
    requires |f[0]| > 0 && Last(f[0]) != End(g)
    requires Distinct(ys) && forall y :: y in ys <==> IsMove(g, Last(f[0]), y) && y !in claimed
    ensures LevelInv(g, f[1..] + Extensions(f[0], ys), claimed + Elems(ys), lvl')
  {
    var p := f[0];
    assert p in f;
    assert Tracked(g, claimed, p);
    lvl' := Promote(lvl, ys, |p|);
    if |p| > 1 && Last(p) == Start {
      NothingFresh(g, claimed, ys);
      LevelStepBack(g, f, claimed, lvl, ys);
    } else {
      assert Last(p) in lvl && lvl[Last(p)] == |p| - 1;
      LevelStepForward(g, f, claimed, lvl, ys);
    }
  }

  /** Once the start is expanded, a path back onto it finds no fresh cell. */
  lemma NothingFresh(g: Grid, claimed: set<Loc>, ys: seq<Loc>)
    requires Expanded(g, claimed, Start)
    requires Distinct(ys) && forall y :: y in ys <==> IsMove(g, Start, y) && y !in claimed
    ensures ys == []
  {
    assert forall y :: IsMove(g, Start, y) ==> y in claimed;
    assert Elems(ys) == {};
    DistinctCard(ys);
  }

  /** A path back onto the start is dequeued: nothing is added, and the level
      invariant holds of the rest of the queue. */
  lemma LevelStepBack(g: Grid, f: seq<seq<Loc>>, claimed: set<Loc>, lvl: map<Loc, nat>, ys: seq<Loc>)
    requires IsGrid(g) && f != [] && LevelInv(g, f, claimed, lvl)
    requires |f[0]| > 1 && Last(f[0]) == Start && ys == []
    ensures LevelInv(g, f[1..] + Extensions(f[0], ys), claimed + Elems(ys), Promote(lvl, ys, |f[0]|))
  {
    assert f[1..] + Extensions(f[0], ys) == f[1..];
    assert claimed + Elems(ys) == claimed;
    assert Promote(lvl, ys, |f[0]|) == lvl;
    LevelDrop(g, f, claimed, lvl);
  }

  /** Dropping a path that ends back at the start keeps the level invariant. */
  lemma LevelDrop(g: Grid, f: seq<seq<Loc>>, claimed: set<Loc>, lvl: map<Loc, nat>)
    requires IsGrid(g) && f != [] && LevelInv(g, f, claimed, lvl)
    requires |f[0]| > 1 && Last(f[0]) == Start
    ensures LevelInv(g, f[1..], claimed, lvl)
  {
    var f' := f[1..];
    forall j | 0 <= j < |f'| ensures |f'[j]| <= |f'[0]| + 1 && |f[0]| <= |f'[j]| {
      assert f'[j] == f[j + 1] && f'[0] == f[1];
    }
    forall z | z in lvl ensures Graded(g, lvl, z) || exists j :: 0 <= j < |f'| && EndsAt(f'[j], z) && |f'[j]| - 1 == lvl[z] {
      if !Graded(g, lvl, z) {
        var j :| 0 <= j < |f| && EndsAt(f[j], z) && |f[j]| - 1 == lvl[z];
        assert j != 0;
        assert f'[j - 1] == f[j];
      }
    }
  }

  /** The queue lengths after dequeuing a path of `d` cells and enqueuing
      paths of `d + 1`. */
  lemma QueueLengths(f: seq<seq<Loc>>, add: seq<seq<Loc>>)
    requires f != [] && ByLength(f)
    requires forall k :: 0 <= k < |add| ==> |add[k]| == |f[0]| + 1
    ensures forall j :: 0 <= j < |f[1..] + add| ==> |f[0]| <= |(f[1..] + add)[j]| <= |f[0]| + 1
    ensures ByLength(f[1..] + add)
  {
    var f' := f[1..] + add;
    forall j | 0 <= j < |f'| ensures |f[0]| <= |f'[j]| <= |f[0]| + 1 {
      if j < |f| - 1 {
        assert f'[j] == f[j + 1];
      } else {
        assert f'[j] == add[j - (|f| - 1)];
      }
    }
    forall i, j | 0 <= i <= j < |f'| ensures |f'[i]| <= |f'[j]| {
      if j < |f| - 1 {
        assert f'[i] == f[i + 1] && f'[j] == f[j + 1];
      } else if i < |f| - 1 {
        assert f'[i] == f[i + 1];
        assert f'[j] == add[j - (|f| - 1)];
      } else {
        assert f'[i] == add[i - (|f| - 1)] && f'[j] == add[j - (|f| - 1)];
      }
    }
  }

  /** After an expansion the start keeps level 0, the fresh cells take level
      `d`, and no level exceeds `d`. */
  lemma PromoteLevels(lvl: map<Loc, nat>, claimed: set<Loc>, ys: seq<Loc>, d: nat)
    requires lvl.Keys == Reached(claimed) && lvl[Start] == 0
    requires forall z :: z in lvl ==> lvl[z] <= d
    requires forall y :: y in ys ==> y !in claimed
    ensures Promote(lvl, ys, d).Keys == Reached(claimed + Elems(ys))
    ensures Promote(lvl, ys, d)[Start] == 0
    ensures forall z :: z in Promote(lvl, ys, d) ==> Promote(lvl, ys, d)[z] <= d
    ensures forall z :: z in lvl ==> z in Promote(lvl, ys, d) && Promote(lvl, ys, d)[z] == lvl[z]
    ensures forall z :: z in Promote(lvl, ys, d) && z !in lvl ==> z in ys && Promote(lvl, ys, d)[z] == d
  {
  }

  /** The paths that did not step back onto the start still end at their own
      level once the extensions of the front path are enqueued. */
  lemma ProperLevels(f: seq<seq<Loc>>, lvl: map<Loc, nat>, ys: seq<Loc>, lvl': map<Loc, nat>)
    requires f != [] && |f[0]| > 0 && Last(f[0]) in lvl && lvl[Last(f[0])] == |f[0]| - 1
    requires AtOwnLevel(f, lvl)
    requires forall z :: z in lvl ==> z in lvl' && lvl'[z] == lvl[z]
    requires forall y :: y in ys && y != Start ==> y in lvl' && lvl'[y] == |f[0]|
    ensures AtOwnLevel(f[1..] + Extensions(f[0], ys), lvl')
  {
    var f' := f[1..] + Extensions(f[0], ys);
    forall j | 0 <= j < |f'| && |f'[j]| > 0 && (|f'[j]| == 1 || Last(f'[j]) != Start)
      ensures Last(f'[j]) in lvl' && lvl'[Last(f'[j])] == |f'[j]| - 1
    {
      if j < |f| - 1 {
        assert f'[j] == f[j + 1];
      } else {
        var k := j - (|f| - 1);
        assert f'[j] == f[0] + [ys[k]];
        assert ys[k] in ys;
      }
    }
  }

  /** Every reached cell is graded or has a waiting path at its level after
      the front path, ending at `x`, is expanded. */
  lemma GradingKept(g: Grid, f: seq<seq<Loc>>, lvl: map<Loc, nat>, ys: seq<Loc>, lvl': map<Loc, nat>)
    requires f != [] && |f[0]| > 0 && Last(f[0]) in lvl && lvl[Last(f[0])] == |f[0]| - 1
    requires GradedOrWaiting(g, f, lvl)
    requires forall z :: z in lvl ==> z in lvl' && lvl'[z] == lvl[z]
    requires forall z :: z in lvl' && z !in lvl ==> z in ys && lvl'[z] == |f[0]|
    requires forall z :: z in lvl' ==> lvl'[z] <= |f[0]|
    requires forall y :: IsMove(g, Last(f[0]), y) ==> y in lvl'
    ensures GradedOrWaiting(g, f[1..] + Extensions(f[0], ys), lvl')
  {
    var p, x := f[0], Last(f[0]);
    var f' := f[1..] + Extensions(p, ys);
    assert Graded(g, lvl', x) by {
      assert lvl'[x] == |p| - 1;
    }
    forall z | z in lvl' ensures Graded(g, lvl', z) || exists j :: 0 <= j < |f'| && EndsAt(f'[j], z) && |f'[j]| - 1 == lvl'[z] {
      if z !in lvl {
        var k :| 0 <= k < |ys| && ys[k] == z;
        var j := |f| - 1 + k;
        assert f'[j] == p + [z];
        assert EndsAt(f'[j], z) && |f'[j]| - 1 == lvl'[z];
      } else if z != x {
        if !Graded(g, lvl, z) {
          var j :| 0 <= j < |f| && EndsAt(f[j], z) && |f[j]| - 1 == lvl[z];
          assert j != 0;
          assert f'[j - 1] == f[j];
        } else {
          GradedGrows(g, lvl, lvl', z);
        }
      }
    }
  }

  /** A path that did not step back onto the start is dequeued and expanded. */
  lemma LevelStepForward(g: Grid, f: seq<seq<Loc>>, claimed: set<Loc>, lvl: map<Loc, nat>, ys: seq<Loc>)
    requires IsGrid(g) && f != [] && LevelInv(g, f, claimed, lvl)
    requires |f[0]| > 0 && Last(f[0]) in lvl && lvl[Last(f[0])] == |f[0]| - 1
    requires Distinct(ys) && forall y :: y in ys <==> IsMove(g, Last(f[0]), y) && y !in claimed
    ensures LevelInv(g, f[1..] + Extensions(f[0], ys), claimed + Elems(ys), Promote(lvl, ys, |f[0]|))
  {
    var p, d, x := f[0], |f[0]|, Last(f[0]);
    var f', lvl' := f[1..] + Extensions(p, ys), Promote(lvl, ys, d);
    PromoteLevels(lvl, claimed, ys, d);
    assert forall y :: IsMove(g, x, y) ==> y in lvl' by {
      assert forall y :: IsMove(g, x, y) ==> y in claimed || y == Start || y in ys;
    }
    QueueLengths(f, Extensions(p, ys));
    ProperLevels(f, lvl, ys, lvl');
    GradingKept(g, f, lvl, ys, lvl');
  }

  /** Along a solution shorter than the front path, every cell is graded and
      its level is at most its index. */
  lemma {:induction false} LevelsAlong(g: Grid, f: seq<seq<Loc>>, claimed: set<Loc>, lvl: map<Loc, nat>, q: seq<Loc>, i: nat)
    requires IsGrid(g) && f != [] && LevelInv(g, f, claimed, lvl)
    requires IsSolution(g, q) && |q| < |f[0]| && i < |q|
    ensures q[i] in lvl && lvl[q[i]] <= i
  {
    if i > 0 {
      LevelsAlong(g, f, claimed, lvl, q, i - 1);
      var z := q[i - 1];
      assert Graded(g, lvl, z);
      assert IsMove(g, z, q[i]);
    }
  }

  /** The first path to the end taken off the queue is no longer than any
      solution. */
  lemma BfsShortest(g: Grid, f: seq<seq<Loc>>, claimed: set<Loc>, lvl: map<Loc, nat>)
    requires IsGrid(g) && f != [] && SearchInv(g, f, claimed) && LevelInv(g, f, claimed, lvl)
    requires EndsAt(f[0], End(g))
    ensures forall q :: IsSolution(g, q) ==> |f[0]| <= |q|
  {
    var p := f[0];
    assert p in f;
    SearchFound(g, f, claimed, p);
    EndIsNotStart(g);
    if End(g) == Start {
      SingleCell(g, p);
    } else {
      forall q | IsSolution(g, q) ensures |p| <= |q| {
        if |q| < |p| {
          LevelsAlong(g, f, claimed, lvl, q, |q| - 1);
        }
      }
    }
  }

  /** solveMazeBFS.  The result is never empty: when the queue runs out it is
      the last path dequeued.  It ends at the end cell exactly when the maze
      has a solution, and then validatePath accepts it and no solution has
      fewer cells.  `enqueued` counts the enqueues after the seed. */
  method SolveMazeBFS(g: Grid) returns (path: seq<Loc>, ghost enqueued: nat)
    requires IsGrid(g)
    ensures IsWalk(g, path)
    ensures Last(path) == End(g) <==> Solvable(g)
    ensures Last(path) == End(g) ==> Validation(g, path) == Completes
    ensures Last(path) == End(g) ==> forall q :: IsSolution(g, q) ==> |path| <= |q|
    ensures Last(path) != End(g) ==> Validation(g, path) == Raises(BadEndpoints)
    ensures NumRows(g) == 1 && NumCols(g) == 1 ==> path == [Start]
    ensures enqueued <= NumRows(g) * NumCols(g)
  {
    var newMaze := new bool[|g|, |g[0]|]((r, c) => if 0 <= r < |g| && 0 <= c < |g[r]| then g[r][c] else false);
    var end, start := End(g), Start;
    path := [start];
    var allPaths := [path];
    ghost var claimed: set<Loc> := {};
    ghost var lvl: map<Loc, nat> := map[Start := 0];
    enqueued := 0;
    ghost var cells := NumRows(g) * NumCols(g);
    SearchInit(g);
    LevelInit(g);
    ClaimBound(g, {});
    while allPaths != []
      invariant ClaimsMatch(g, newMaze, claimed)
      invariant SearchInv(g, allPaths, claimed)
      invariant LevelInv(g, allPaths, claimed, lvl)
      invariant enqueued == |claimed|
      invariant enqueued <= cells
      invariant IsWalk(g, path) && (Last(path) == end ==> allPaths == [path])
      decreases cells - enqueued, |allPaths|
    {
      var frontier := allPaths;
      path := allPaths[0];
      allPaths := allPaths[1..];
      DequeueSplit(frontier);
      assert Tracked(g, claimed, path);
      var lastLoc := path[|path| - 1];
      if lastLoc == end {
        SearchFound(g, frontier, claimed, path);
        BfsShortest(g, frontier, claimed, lvl);
        SolverResult(g, path);
        return;
      }
      WalkInBounds(g, path, |path| - 1);
      var added, ys := Expand(g, newMaze, path, claimed);
      SearchStep(g, frontier, path, allPaths, claimed, ys);
      ghost var lvl' := LevelStep(g, frontier, claimed, lvl, ys);
      ClaimStep(claimed, ys);
      ClaimBound(g, claimed + Elems(ys));
      allPaths := allPaths + added;
      lvl := lvl';
      claimed := claimed + Elems(ys);
      enqueued := enqueued + |ys|;
    }
    SearchExhausted(g, claimed);
    SolverResult(g, path);
  }
}
