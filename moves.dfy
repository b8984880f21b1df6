/** generateValidMoves: the open orthogonal neighbours of a location. */
module Moves {

  import opened Wrappers
  import opened Grids

  /** The grid library's own error when a location outside the grid is read. */
  datatype GridError = OutOfRange(loc: Loc)

  /** One guarded check of generateValidMoves: when the guard holds, read the
      grid at `loc` (failing if it is outside) and add `loc` if it is a corridor.
      An earlier failure propagates unchanged. */
  function Probe(g: Grid, guard: bool, loc: Loc, acc: Result<set<Loc>, GridError>): Result<set<Loc>, GridError>
  {
    if acc.Failure? || !guard then acc
    else if !InBounds(g, loc) then Failure(OutOfRange(loc))
    else if g[loc.row][loc.col] then Success(acc.value + {loc})
    else acc
  }

  /** The four checks of generateValidMoves, in its order: top, bottom, left,
      right.  Each guard compares with the grid's dimensions, not with the
      location's own bounds, so a location outside the grid can make a check
      read outside it too. */
  function GenerateValidMoves(g: Grid, cur: Loc): (r: Result<set<Loc>, GridError>)
    requires IsGrid(g)
    ensures r.Success? ==> forall y :: y in r.value ==> IsMove(g, cur, y)
    ensures InBounds(g, cur) ==> r.Success? && forall y :: IsMove(g, cur, y) ==> y in r.value
    ensures r.Failure? ==> Adjacent(cur, r.error.loc) && !InBounds(g, r.error.loc)
  {
    var row, col := cur.row, cur.col;
    var top := Probe(g, row > 0, Loc(row - 1, col), Success({}));
    ProbeKeeps(g, cur, row > 0, Loc(row - 1, col), Success({}));
    var bottom := Probe(g, row < NumRows(g) - 1, Loc(row + 1, col), top);
    ProbeKeeps(g, cur, row < NumRows(g) - 1, Loc(row + 1, col), top);
    var left := Probe(g, col > 0, Loc(row, col - 1), bottom);
    ProbeKeeps(g, cur, col > 0, Loc(row, col - 1), bottom);
    ProbeKeeps(g, cur, col < NumCols(g) - 1, Loc(row, col + 1), left);
    Probe(g, col < NumCols(g) - 1, Loc(row, col + 1), left)
  }

  /** What every intermediate result of generateValidMoves satisfies: a
      success holds only moves out of `cur`, a failure names an off-grid
      neighbour of `cur`. */
  predicate Partial(g: Grid, cur: Loc, acc: Result<set<Loc>, GridError>)
  {
    match acc
    case Success(s) => forall y :: y in s ==> IsMove(g, cur, y)
    case Failure(e) => Adjacent(cur, e.loc) && !InBounds(g, e.loc)
  }

  /** One check keeps `Partial`; from a cell inside the grid, where each guard
      holds exactly when its neighbour is inside, it keeps a success and adds
      the neighbour when that is a move. */
  lemma ProbeKeeps(g: Grid, cur: Loc, guard: bool, loc: Loc, acc: Result<set<Loc>, GridError>)
    requires IsGrid(g) && Adjacent(cur, loc) && Partial(g, cur, acc)
    ensures Partial(g, cur, Probe(g, guard, loc, acc))
    ensures acc.Success? && InBounds(g, cur) && (guard <==> InBounds(g, loc)) ==>
              Probe(g, guard, loc, acc).Success? && acc.value <= Probe(g, guard, loc, acc).value &&
              (IsMove(g, cur, loc) ==> loc in Probe(g, guard, loc, acc).value)
  {
  }

  /** The neighbours of a cell inside the grid. */
  function Neighbours(g: Grid, cur: Loc): (s: set<Loc>)
    requires IsGrid(g) && InBounds(g, cur)
    ensures forall y :: y in s <==> IsMove(g, cur, y)
  {
    GenerateValidMoves(g, cur).value
  }

  /** The four orthogonal candidates of a location. */
  function Candidates(cur: Loc): set<Loc>
  {
    {Loc(cur.row - 1, cur.col), Loc(cur.row + 1, cur.col), Loc(cur.row, cur.col - 1), Loc(cur.row, cur.col + 1)}
  }

  lemma AdjacentIsCandidate(cur: Loc, y: Loc)
    ensures Adjacent(cur, y) <==> y in Candidates(cur)
  {
  }

  /** What a caller may rely on about the neighbours of an in-bounds cell: at
      most four, never the cell itself (so the solvers' `temp != lastLoc` test
      always holds), none when all four sides are walls or off the grid, and all
      four when the cell is interior and surrounded by corridors. */
  lemma NeighbourFacts(g: Grid, cur: Loc)
    requires IsGrid(g) && InBounds(g, cur)
    ensures cur !in Neighbours(g, cur)
    ensures |Neighbours(g, cur)| <= 4
    ensures Neighbours(g, cur) == {} <==> forall y :: Adjacent(cur, y) ==> !Open(g, y)
    ensures (forall y :: Adjacent(cur, y) ==> Open(g, y)) ==> |Neighbours(g, cur)| == 4
  {
    MoveSetFacts(g, cur, Neighbours(g, cur));
  }

  /** NeighbourFacts for any set that holds exactly the moves out of `cur`. */
  lemma MoveSetFacts(g: Grid, cur: Loc, n: set<Loc>)
    requires IsGrid(g) && InBounds(g, cur)
    requires forall y :: y in n <==> IsMove(g, cur, y)
    ensures cur !in n
    ensures |n| <= 4
    ensures n == {} <==> forall y :: Adjacent(cur, y) ==> !Open(g, y)
    ensures (forall y :: Adjacent(cur, y) ==> Open(g, y)) ==> |n| == 4
  {
    var four := Candidates(cur);
    forall y | y in n ensures y in four {
      AdjacentIsCandidate(cur, y);
    }
    SubsetCard(n, four);
    if forall y :: Adjacent(cur, y) ==> Open(g, y) {
      forall y | y in four ensures y in n {
        AdjacentIsCandidate(cur, y);
      }
      assert n == four;
      CandidatesCount(cur);
    }
  }

  lemma CandidatesCount(cur: Loc)
    ensures |Candidates(cur)| == 4
  {
    var up, down, left, right := Loc(cur.row - 1, cur.col), Loc(cur.row + 1, cur.col), Loc(cur.row, cur.col - 1), Loc(cur.row, cur.col + 1);
    assert |{up}| == 1;
    assert |{up, down}| == 2;
    assert |{up, down, left}| == 3;
    assert {up, down, left, right} == {up, down, left} + {right};
  }

  /** The locations generateValidMoves reads, in its order: each candidate
      whose guard holds. */
  function GuardedReads(g: Grid, cur: Loc): seq<Loc>
  {
    Guarded(cur.row > 0, Loc(cur.row - 1, cur.col)) +
    Guarded(cur.row < NumRows(g) - 1, Loc(cur.row + 1, cur.col)) +
    Guarded(cur.col > 0, Loc(cur.row, cur.col - 1)) +
    Guarded(cur.col < NumCols(g) - 1, Loc(cur.row, cur.col + 1))
  }

  function Guarded(guard: bool, loc: Loc): seq<Loc>
  {
    if guard then [loc] else []
  }

  /** Probing the reads `ls` in order, starting from a success. */
  function ProbeAll(g: Grid, ls: seq<Loc>, acc: Result<set<Loc>, GridError>): Result<set<Loc>, GridError>
    decreases |ls|
  {
    if ls == [] then acc else ProbeAll(g, ls[1..], Probe(g, true, ls[0], acc))
  }

  /** A run of reads fails exactly at its first location outside the grid. */
  lemma {:induction false} ProbeAllFails(g: Grid, ls: seq<Loc>, acc: Result<set<Loc>, GridError>)
    requires acc.Success?
    ensures ProbeAll(g, ls, acc).Failure? <==> exists i :: 0 <= i < |ls| && !InBounds(g, ls[i])
    ensures ProbeAll(g, ls, acc).Failure? ==>
              exists i :: 0 <= i < |ls| && ProbeAll(g, ls, acc).error.loc == ls[i] && !InBounds(g, ls[i]) &&
                forall j :: 0 <= j < i ==> InBounds(g, ls[j])
    decreases |ls|
  {
    if ls != [] {
      var next := Probe(g, true, ls[0], acc);
      if InBounds(g, ls[0]) {
        ProbeAllFails(g, ls[1..], next);
        if ProbeAll(g, ls, acc).Failure? {
          var i :| 0 <= i < |ls[1..]| && ProbeAll(g, ls, acc).error.loc == ls[1..][i] && !InBounds(g, ls[1..][i]) &&
                   forall j :: 0 <= j < i ==> InBounds(g, ls[1..][j]);
          assert ls[i + 1] == ls[1..][i];
          assert forall j :: 1 <= j < i + 1 ==> ls[j] == ls[1..][j - 1];
        }
        assert forall i :: 1 <= i < |ls| ==> ls[i] == ls[1..][i - 1];
      } else {
        assert ProbeAll(g, ls[1..], next) == next by {
          FailureSticks(g, ls[1..], next);
        }
      }
    }
  }

  lemma {:induction false} FailureSticks(g: Grid, ls: seq<Loc>, acc: Result<set<Loc>, GridError>)
    requires acc.Failure?
    ensures ProbeAll(g, ls, acc) == acc
    decreases |ls|
  {
    if ls != [] {
      FailureSticks(g, ls[1..], Probe(g, true, ls[0], acc));
    }
  }

  /** generateValidMoves probes its guarded reads one after the other. */
  lemma ProbesInOrder(g: Grid, cur: Loc)
    requires IsGrid(g)
    ensures GenerateValidMoves(g, cur) == ProbeAll(g, GuardedReads(g, cur), Success({}))
  {
    var row, col := cur.row, cur.col;
    var a := Guarded(row > 0, Loc(row - 1, col));
    var b := Guarded(row < NumRows(g) - 1, Loc(row + 1, col));
    var c := Guarded(col > 0, Loc(row, col - 1));
    var d := Guarded(col < NumCols(g) - 1, Loc(row, col + 1));
    var top := Probe(g, row > 0, Loc(row - 1, col), Success({}));
    var bottom := Probe(g, row < NumRows(g) - 1, Loc(row + 1, col), top);
    var left := Probe(g, col > 0, Loc(row, col - 1), bottom);
    var right := Probe(g, col < NumCols(g) - 1, Loc(row, col + 1), left);
    assert GenerateValidMoves(g, cur) == right;
    ProbeGuarded(g, row > 0, Loc(row - 1, col), Success({}));
    ProbeGuarded(g, row < NumRows(g) - 1, Loc(row + 1, col), top);
    ProbeGuarded(g, col > 0, Loc(row, col - 1), bottom);
    ProbeGuarded(g, col < NumCols(g) - 1, Loc(row, col + 1), left);
    ProbeAllSplit(g, a + b + c, d, Success({}));
    ProbeAllSplit(g, a + b, c, Success({}));
    ProbeAllSplit(g, a, b, Success({}));
  }

  /** One guarded read probed as a run of reads is the guarded check itself. */
  lemma ProbeGuarded(g: Grid, guard: bool, loc: Loc, acc: Result<set<Loc>, GridError>)
    ensures ProbeAll(g, Guarded(guard, loc), acc) == Probe(g, guard, loc, acc)
  {
    if guard {
      assert Guarded(guard, loc)[1..] == [];
    }
  }

  lemma {:induction false} ProbeAllSplit(g: Grid, xs: seq<Loc>, ys: seq<Loc>, acc: Result<set<Loc>, GridError>)
    ensures ProbeAll(g, xs + ys, acc) == ProbeAll(g, ys, ProbeAll(g, xs, acc))
    decreases |xs|
  {
    if xs == [] {
      assert xs + ys == ys;
    } else {
      assert (xs + ys)[1..] == xs[1..] + ys;
      ProbeAllSplit(g, xs[1..], ys, Probe(g, true, xs[0], acc));
    }
  }

  /** When generateValidMoves raises the grid's range error: exactly when one
      of its guarded reads falls outside the grid, and then at the first such
      read in top, bottom, left, right order. */
  lemma RangeError(g: Grid, cur: Loc)
    requires IsGrid(g)
    ensures GenerateValidMoves(g, cur).Failure? <==>
              exists i :: 0 <= i < |GuardedReads(g, cur)| && !InBounds(g, GuardedReads(g, cur)[i])
    ensures GenerateValidMoves(g, cur).Failure? ==>
              exists i :: 0 <= i < |GuardedReads(g, cur)| && GenerateValidMoves(g, cur).error.loc == GuardedReads(g, cur)[i] &&
                !InBounds(g, GuardedReads(g, cur)[i]) && forall j :: 0 <= j < i ==> InBounds(g, GuardedReads(g, cur)[j])
  {
    ProbesInOrder(g, cur);
    ProbeAllFails(g, GuardedReads(g, cur), Success({}));
  }
}
