/** validatePath: certifies that a path is a solution, or reports the first
    check it fails. */
module Validate {

  import opened Wrappers
  import opened Grids
  import opened Moves
  import opened Paths

  /** The failures validatePath raises through `error(...)`, in the order it
      checks for them, together with the grid's own range error, which the
      first call to generateValidMoves can raise before the endpoint check. */
  datatype PathError = EmptyPath | GridRange(loc: Loc) | BadEndpoints | LoopDetected | IllegalMove

  /** validatePath either runs to completion or raises one error. */
  datatype Outcome = Completes | Raises(error: PathError)

  /** The loop of validatePath from index `i` on, once `p[..i]` has passed. */
  function StepsFrom(g: Grid, p: seq<Loc>, i: nat): Outcome
    requires IsGrid(g) && 1 <= i <= |p|
    decreases |p| - i
  {
    if i == |p| then Completes
    else if p[i] in p[..i] then Raises(LoopDetected)
    else if !IsMove(g, p[i - 1], p[i]) then Raises(IllegalMove)
    else StepsFrom(g, p, i + 1)
  }

  /** The outcome of validatePath on grid `g` and path `p`. */
  function Validation(g: Grid, p: seq<Loc>): Outcome
    requires IsGrid(g)
  {
    if |p| == 0 then Raises(EmptyPath)
    else match GenerateValidMoves(g, p[0])
      case Failure(e) => Raises(GridRange(e.loc))
      case Success(_) =>
        if p[0] != Start || Last(p) != End(g) then Raises(BadEndpoints)
        else StepsFrom(g, p, 1)
  }

  /** validatePath.  It keeps the set of locations seen so far and the moves
      allowed from the previous location, and reads but never writes the grid
      and the path. */
  method ValidatePath(g: Grid, path: seq<Loc>) returns (outcome: Outcome)
    requires IsGrid(g)
    ensures outcome == Validation(g, path)
  {
    if |path| == 0 {
      return Raises(EmptyPath);
    }
    var visited: set<Loc> := {path[0]};
    var probe := GenerateValidMoves(g, path[0]);
    if probe.Failure? {
      return Raises(GridRange(probe.error.loc));
    }
    var validSet := probe.value;
    var start, end := Start, End(g);
    if path[0] != start || path[|path| - 1] != end {
      return Raises(BadEndpoints);
    }
    for i := 1 to |path|
      invariant visited == set k | 0 <= k < i :: path[k]
      invariant InBounds(g, path[i - 1]) && validSet == Neighbours(g, path[i - 1])
      invariant StepsFrom(g, path, i) == Validation(g, path)
    {
      var temp := path[i];
      assert temp in visited <==> temp in path[..i];
      if temp in visited {
        return Raises(LoopDetected);
      } else if temp !in validSet {
        return Raises(IllegalMove);
      } else {
        visited := visited + {temp};
        validSet := GenerateValidMoves(g, temp).value;
      }
    }
    return Completes;
  }

  /** The first `k` locations are loop-free and take only legal moves. */
  predicate Sound(g: Grid, p: seq<Loc>, k: nat)
    requires k <= |p|
  {
    Distinct(p[..k]) && Steps(g, p[..k])
  }

  /** Index `k` is where the loop of validatePath stops: everything before it
      passed and `p[k]` repeats a location or is not a legal move. */
  predicate FirstFault(g: Grid, p: seq<Loc>, k: int)
  {
    1 <= k < |p| && Sound(g, p, k) && (p[k] in p[..k] || !IsMove(g, p[k - 1], p[k]))
  }

  lemma SoundExtends(g: Grid, p: seq<Loc>, i: nat)
    requires 1 <= i < |p| && Sound(g, p, i) && p[i] !in p[..i] && IsMove(g, p[i - 1], p[i])
    ensures Sound(g, p, i + 1)
  {
    var q := p[..i + 1];
    assert q[..i] == p[..i];
    forall a, b | 0 <= a < b < |q| ensures q[a] != q[b] {
      if b < i {
        assert q[a] == p[..i][a] && q[b] == p[..i][b];
      } else {
        assert q[a] in p[..i];
      }
    }
    forall a | 0 <= a < |q| - 1 ensures IsMove(g, q[a], q[a + 1]) {
      if a + 1 < i {
        assert q[a] == p[..i][a] && q[a + 1] == p[..i][a + 1];
      }
    }
  }

  /** A sound prefix of the whole path is the whole path. */
  lemma SoundAll(g: Grid, p: seq<Loc>)
    ensures Sound(g, p, |p|) <==> Distinct(p) && Steps(g, p)
  {
    assert p[..|p|] == p;
  }

  /** A fault cuts the path short of being loop-free with legal moves. */
  lemma FaultBreaks(g: Grid, p: seq<Loc>, k: int)
    requires FirstFault(g, p, k)
    ensures !(Distinct(p) && Steps(g, p))
  {
    if p[k] in p[..k] {
      var j :| 0 <= j < k && p[..k][j] == p[k];
      assert p[j] == p[k];
    } else {
      assert !IsMove(g, p[k - 1], p[k]);
    }
  }

  /** The loop finds no fault exactly when none exists. */
  lemma {:induction false} StepsFromCompletes(g: Grid, p: seq<Loc>, i: nat)
    requires IsGrid(g) && 1 <= i <= |p| && Sound(g, p, i)
    ensures StepsFrom(g, p, i) == Completes <==> Distinct(p) && Steps(g, p)
    decreases |p| - i
  {
    if i == |p| {
      SoundAll(g, p);
    } else if p[i] in p[..i] || !IsMove(g, p[i - 1], p[i]) {
      FaultBreaks(g, p, i);
    } else {
      SoundExtends(g, p, i);
      StepsFromCompletes(g, p, i + 1);
    }
  }

  /** A later fault has every earlier index passed. */
  lemma FaultIsFirst(g: Grid, p: seq<Loc>, i: nat, k: int)
    requires 1 <= i < k && FirstFault(g, p, k)
    ensures p[i] !in p[..i] && IsMove(g, p[i - 1], p[i])
  {
    var q := p[..k];
    assert q[i] == p[i] && q[i - 1] == p[i - 1];
    assert q[..i] == p[..i];
  }

  /** From a sound prefix on, the loop stops at the first fault and raises the
      error that fault calls for. */
  lemma {:induction false} StepsFromFault(g: Grid, p: seq<Loc>, i: nat, k: int)
    requires IsGrid(g) && FirstFault(g, p, k) && 1 <= i <= k && Sound(g, p, i)
    ensures StepsFrom(g, p, i) == if p[k] in p[..k] then Raises(LoopDetected) else Raises(IllegalMove)
    decreases k - i
  {
    if i < k {
      FaultIsFirst(g, p, i, k);
      SoundExtends(g, p, i);
      StepsFromFault(g, p, i + 1, k);
    }
  }

  /** When the loop raises an error, there is a first fault. */
  lemma {:induction false} StepsFromFindsFault(g: Grid, p: seq<Loc>, i: nat)
    requires IsGrid(g) && 1 <= i <= |p| && Sound(g, p, i)
    ensures StepsFrom(g, p, i) != Completes ==> exists k :: i <= k && FirstFault(g, p, k)
    decreases |p| - i
  {
    if i < |p| {
      if p[i] in p[..i] || !IsMove(g, p[i - 1], p[i]) {
        assert FirstFault(g, p, i);
      } else {
        SoundExtends(g, p, i);
        StepsFromFindsFault(g, p, i + 1);
      }
    }
  }

  /** validatePath completes exactly on the solutions. */
  lemma ValidationCompletes(g: Grid, p: seq<Loc>)
    requires IsGrid(g)
    ensures Validation(g, p) == Completes <==> IsSolution(g, p)
  {
    if |p| > 0 && p[0] == Start && Last(p) == End(g) {
      assert Sound(g, p, 1) by {
        assert p[..1] == [p[0]];
      }
      StepsFromCompletes(g, p, 1);
    }
  }

  /** Which error validatePath raises, in the order it checks: an empty path;
      the range error, which happens only for a first location off the grid;
      a wrong start or end; then, at the first location that fails, a loop if
      it repeats an earlier location and an illegal move otherwise. */
  lemma ValidationRaises(g: Grid, p: seq<Loc>)
    requires IsGrid(g)
    ensures Validation(g, p) == Raises(EmptyPath) <==> |p| == 0
    ensures (Validation(g, p).Raises? && Validation(g, p).error.GridRange?) <==>
              |p| > 0 && GenerateValidMoves(g, p[0]).Failure?
    ensures (Validation(g, p).Raises? && Validation(g, p).error.GridRange?) ==> !InBounds(g, p[0])
    ensures Validation(g, p) == Raises(BadEndpoints) <==>
              |p| > 0 && GenerateValidMoves(g, p[0]).Success? && (p[0] != Start || Last(p) != End(g))
    ensures Validation(g, p) == Raises(LoopDetected) <==>
              |p| > 0 && p[0] == Start && Last(p) == End(g) &&
              exists k :: FirstFault(g, p, k) && p[k] in p[..k]
    ensures Validation(g, p) == Raises(IllegalMove) <==>
              |p| > 0 && p[0] == Start && Last(p) == End(g) &&
              exists k :: FirstFault(g, p, k) && p[k] !in p[..k]
  {
    if |p| > 0 && p[0] == Start && Last(p) == End(g) {
      assert Sound(g, p, 1) by {
        assert p[..1] == [p[0]];
      }
      StepsFromFindsFault(g, p, 1);
      forall k | FirstFault(g, p, k) ensures Validation(g, p) == if p[k] in p[..k] then Raises(LoopDetected) else Raises(IllegalMove) {
        StepsFromFault(g, p, 1, k);
      }
    }
  }
}
