/** readMazeFile, from the lines of the file on: the maze is resized to the
    number of lines by the length of the first line and filled row by row,
    `'@'` as a wall and `'-'` as a corridor.  A row of another length or
    another character stops the fill with an error. */
module Loader {

  import opened Wrappers
  import opened Grids

  datatype LoadError =
    | NoLines                                // `lines[0]` of an empty vector: a range error
    | RaggedRow(row: nat)                    // "Maze row has inconsistent number of columns"
    | BadChar(row: nat, col: nat, ch: char)  // "Maze location has invalid character"

  predicate MazeChar(ch: char)
  {
    ch == '@' || ch == '-'
  }

  /** Row `r` has the length of row 0 and only maze characters. */
  predicate RowOk(lines: seq<string>, r: nat)
    requires 0 < |lines| && r < |lines|
  {
    |lines[r]| == |lines[0]| && forall c :: 0 <= c < |lines[r]| ==> MazeChar(lines[r][c])
  }

  /** A maze file the loader accepts. */
  predicate WellFormed(lines: seq<string>)
  {
    |lines| > 0 && forall r :: 0 <= r < |lines| ==> RowOk(lines, r)
  }

  /** The first character of `line` from column `c` on that is not a maze
      character, as the error the inner loop raises for row `r`. */
  function CharFault(line: string, r: nat, c: nat): Option<LoadError>
    decreases |line| - c
  {
    if c >= |line| then None
    else if !MazeChar(line[c]) then Some(BadChar(r, c, line[c]))
    else CharFault(line, r, c + 1)
  }

  /** The first error of rows `r` onwards, in the order the loops meet them:
      a row's length before its characters. */
  function RowFault(lines: seq<string>, r: nat): Option<LoadError>
    requires |lines| > 0
    decreases |lines| - r
  {
    if r >= |lines| then None
    else if |lines[r]| != |lines[0]| then Some(RaggedRow(r))
    else match CharFault(lines[r], r, 0)
      case Some(e) => Some(e)
      case None => RowFault(lines, r + 1)
  }

  /** The error readMazeFile stops with, if any. */
  function LoadFault(lines: seq<string>): Option<LoadError>
  {
    if |lines| == 0 then Some(NoLines) else RowFault(lines, 0)
  }

  /** Cell (r, c) was written before the loader stopped with `fault`. */
  predicate Filled(fault: Option<LoadError>, r: int, c: int)
  {
    match fault
    case None => true
    case Some(e) =>
      match e
      case NoLines => false
      case RaggedRow(k) => r < k
      case BadChar(k, j, _) => r < k || (r == k && c < j)
  }

  /** Cell (r, c) of the file is a corridor. */
  predicate Corridor(lines: seq<string>, r: nat, c: nat)
    requires r < |lines|
  {
    c < |lines[r]| && lines[r][c] == '-'
  }

  /** The maze as readMazeFile leaves it: resized to the lines by the first
      line's length, false where nothing was written. */
  function Loaded(lines: seq<string>): (g: Grid)
    requires |lines| > 0
    ensures |g| == |lines| && forall r :: 0 <= r < |g| ==> |g[r]| == |lines[0]|
    ensures forall r, c :: 0 <= r < |g| && 0 <= c < |g[r]| ==>
              (g[r][c] <==> Filled(LoadFault(lines), r, c) && Corridor(lines, r, c))
  {
    seq(|lines|, r requires 0 <= r < |lines| =>
      seq(|lines[0]|, c requires 0 <= c < |lines[0]| => Filled(RowFault(lines, 0), r, c) && Corridor(lines, r, c)))
  }

  /** The grid-filling part of readMazeFile.  `prior` is the maze passed in,
      left as it was when the file has no lines. */
  method ReadMazeLines(lines: seq<string>, prior: Grid) returns (maze: Grid, fault: Option<LoadError>)
    ensures fault == LoadFault(lines)
    ensures |lines| == 0 ==> maze == prior
    ensures |lines| > 0 ==> maze == Loaded(lines)
  {
    if |lines| == 0 {
      return prior, Some(NoLines);
    }
    var numRows, numCols := |lines|, |lines[0]|;
    maze := seq(numRows, _ => seq(numCols, _ => false));
    for r := 0 to numRows
      invariant |maze| == numRows && forall i :: 0 <= i < numRows ==> |maze[i]| == numCols
      invariant RowFault(lines, r) == RowFault(lines, 0)
      invariant forall i, j :: 0 <= i < numRows && 0 <= j < numCols ==> (maze[i][j] <==> i < r && Corridor(lines, i, j))
    {
      if |lines[r]| != numCols {
        fault := Some(RaggedRow(r));
        SameMaze(maze, Loaded(lines));
        return;
      }
      for c := 0 to numCols
        invariant |maze| == numRows && forall i :: 0 <= i < numRows ==> |maze[i]| == numCols
        invariant CharFault(lines[r], r, c) == CharFault(lines[r], r, 0)
        invariant forall i, j :: 0 <= i < numRows && 0 <= j < numCols ==>
                    (maze[i][j] <==> (i < r || (i == r && j < c)) && Corridor(lines, i, j))
      {
        var ch := lines[r][c];
        if ch == '@' {
          maze := maze[r := maze[r][c := false]];
        } else if ch == '-' {
          maze := maze[r := maze[r][c := true]];
        } else {
          fault := Some(BadChar(r, c, ch));
          SameMaze(maze, Loaded(lines));
          return;
        }
      }
    }
    fault := None;
    SameMaze(maze, Loaded(lines));
  }

  /** Two mazes of the same shape that agree on every cell are equal. */
  lemma SameMaze(a: Grid, b: Grid)
    requires |a| == |b| && forall r :: 0 <= r < |a| ==> |a[r]| == |b[r]|
    requires forall r, c :: 0 <= r < |a| && 0 <= c < |a[r]| ==> a[r][c] == b[r][c]
    ensures a == b
  {
    forall r | 0 <= r < |a| ensures a[r] == b[r] {
      assert forall c :: 0 <= c < |a[r]| ==> a[r][c] == b[r][c];
    }
  }

  lemma {:induction false} CharFaultNone(line: string, r: nat, c: nat)
    ensures CharFault(line, r, c) == None <==> forall j :: c <= j < |line| ==> MazeChar(line[j])
    decreases |line| - c
  {
    if c < |line| && MazeChar(line[c]) {
      CharFaultNone(line, r, c + 1);
    }
  }

  /** The inner loop stops at the first character, left to right, that is
      not a maze character. */
  lemma {:induction false} CharFaultSome(line: string, r: nat, c: nat, e: LoadError)
    ensures CharFault(line, r, c) == Some(e) <==>
              e.BadChar? && e.row == r && c <= e.col < |line| && line[e.col] == e.ch && !MazeChar(e.ch) &&
              forall j :: c <= j < e.col ==> MazeChar(line[j])
    decreases |line| - c
  {
    if c < |line| && MazeChar(line[c]) {
      CharFaultSome(line, r, c + 1, e);
    }
  }

  lemma {:induction false} RowFaultNone(lines: seq<string>, r: nat)
    requires |lines| > 0
    ensures RowFault(lines, r) == None <==> forall k :: r <= k < |lines| ==> RowOk(lines, k)
    decreases |lines| - r
  {
    if r < |lines| {
      CharFaultNone(lines[r], r, 0);
      RowFaultNone(lines, r + 1);
      assert (forall k :: r <= k < |lines| ==> RowOk(lines, k)) ==>
               RowOk(lines, r) && forall k :: r + 1 <= k < |lines| ==> RowOk(lines, k);
    }
  }

  /** The outer loop stops at the first row, in row order, that is ragged or
      holds a bad character. */
  lemma {:induction false} RowFaultSome(lines: seq<string>, r: nat, e: LoadError)
    requires |lines| > 0
    ensures RowFault(lines, r) == Some(e) <==>
              RowFirstFault(lines, r, e)
    decreases |lines| - r
  {
    if r < |lines| {
      CharFaultNone(lines[r], r, 0);
      CharFaultSome(lines[r], r, 0, e);
      RowFaultSome(lines, r + 1, e);
      if RowFirstFault(lines, r, e) && e.row != r {
        assert RowOk(lines, r);
        assert RowFirstFault(lines, r + 1, e);
      }
    }
  }

  /** `e` is the error of a row at `r` or later, every row before it from `r`
      on is well formed, and within the faulty row every earlier character is a
      maze character. */
  predicate RowFirstFault(lines: seq<string>, r: nat, e: LoadError)
    requires |lines| > 0
  {
    match e
    case NoLines => false
    case RaggedRow(k) =>
      r <= k < |lines| && |lines[k]| != |lines[0]| && forall i :: r <= i < k ==> RowOk(lines, i)
    case BadChar(k, c, ch) =>
      r <= k < |lines| && |lines[k]| == |lines[0]| && (forall i :: r <= i < k ==> RowOk(lines, i)) &&
      c < |lines[k]| && lines[k][c] == ch && !MazeChar(ch) && forall j :: 0 <= j < c ==> MazeChar(lines[k][j])
  }

  /** readMazeFile succeeds exactly on well-formed files. */
  lemma LoadSucceeds(lines: seq<string>)
    ensures LoadFault(lines) == None <==> WellFormed(lines)
  {
    if |lines| > 0 {
      RowFaultNone(lines, 0);
    }
  }

  /** Each error, characterised: no lines at all; the first ragged row, every
      earlier row being well formed; or the first bad character in row-major
      order, its row having the right length. */
  lemma LoadFails(lines: seq<string>, e: LoadError)
    ensures LoadFault(lines) == Some(NoLines) <==> |lines| == 0
    ensures e.RaggedRow? ==>
              (LoadFault(lines) == Some(e) <==>
                 0 < e.row < |lines| && |lines[e.row]| != |lines[0]| && forall i :: 0 <= i < e.row ==> RowOk(lines, i))
    ensures e.BadChar? ==>
              (LoadFault(lines) == Some(e) <==>
                 e.row < |lines| && |lines[e.row]| == |lines[0]| && (forall i :: 0 <= i < e.row ==> RowOk(lines, i)) &&
                 e.col < |lines[e.row]| && lines[e.row][e.col] == e.ch && !MazeChar(e.ch) &&
                 forall j :: 0 <= j < e.col ==> MazeChar(lines[e.row][j]))
  {
    if |lines| > 0 {
      RowFaultSome(lines, 0, e);
      RowFaultSome(lines, 0, NoLines);
    }
  }

  /** On success, `'-'` becomes a corridor and `'@'` a wall. */
  lemma LoadedCells(lines: seq<string>)
    requires LoadFault(lines) == None
    ensures |lines| > 0
    ensures forall r :: 0 <= r < |lines| ==> |lines[r]| == |lines[0]|
    ensures forall r, c :: 0 <= r < |lines| && 0 <= c < |lines[r]| ==>
              (Loaded(lines)[r][c] <==> lines[r][c] == '-') && (!Loaded(lines)[r][c] <==> lines[r][c] == '@')
  {
    LoadSucceeds(lines);
    forall r | 0 <= r < |lines| ensures |lines[r]| == |lines[0]| {
      assert RowOk(lines, r);
    }
    forall r, c | 0 <= r < |lines| && 0 <= c < |lines[r]|
      ensures (Loaded(lines)[r][c] <==> lines[r][c] == '-') && (!Loaded(lines)[r][c] <==> lines[r][c] == '@')
    {
      assert RowOk(lines, r) && Filled(LoadFault(lines), r, c);
      assert MazeChar(lines[r][c]);
    }
  }

  /** A file the loader accepts whose first line is not empty gives a maze the
      solvers can take. */
  lemma LoadedIsGrid(lines: seq<string>)
    requires LoadFault(lines) == None && |lines| > 0 && |lines[0]| > 0
    ensures IsGrid(Loaded(lines)) && NumRows(Loaded(lines)) == |lines| && NumCols(Loaded(lines)) == |lines[0]|
  {
  }
}
