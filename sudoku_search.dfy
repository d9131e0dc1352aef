/**
 * Sudoku as a search problem for the A* engine, with the heuristic of
 * a_star.py (the number of empty cells).
 *
 * The engine needs total functions, while the Sudoku operations are defined on
 * grids of the right shape: the problem built here answers for any grid, and
 * on the grids search can reach (all of the right shape) it answers exactly as
 * the Sudoku operations do.
 */
module SudokuSearch {
  import opened Common
  import opened AStar
  import opened Sudoku

  /** The iteration limit a_star uses when its caller gives none. */
  const DefaultIterationLimit := 500000

  // ---------------------------------------------------------------------------
  // heuristic

  /** row.count(0) */
  function ZerosIn(row: seq<int>): nat {
    if row == [] then 0 else (if row[0] == 0 then 1 else 0) + ZerosIn(row[1..])
  }

  /** heuristic: the number of empty cells of the grid. */
  function Heuristic(state: Grid): nat {
    if state == [] then 0 else ZerosIn(state[0]) + Heuristic(state[1..])
  }

  lemma {:induction false} ZerosInNone(row: seq<int>)
    ensures ZerosIn(row) == 0 <==> 0 !in row
  {
    if row != [] {
      ZerosInNone(row[1..]);
      assert row == [row[0]] + row[1..];
    }
  }

  /** The heuristic is 0 exactly on grids without an empty cell. */
  lemma {:induction false} HeuristicZero(state: Grid)
    ensures Heuristic(state) == 0 <==> NoEmpty(state)
  {
    if state != [] {
      HeuristicZero(state[1..]);
      ZerosInNone(state[0]);
      if NoEmpty(state) {
        assert 0 !in state[0];
        assert NoEmpty(state[1..]) by {
          forall r, c | 0 <= r < |state[1..]| && 0 <= c < |state[1..][r]|
            ensures state[1..][r][c] != 0
          {
            assert state[1..][r] == state[r + 1];
          }
        }
      }
      if Heuristic(state) == 0 {
        forall r, c | 0 <= r < |state| && 0 <= c < |state[r]|
          ensures state[r][c] != 0
        {
          if r == 0 {
            assert state[0][c] in state[0];
          } else {
            assert state[r] == state[1..][r - 1];
          }
        }
      }
    }
  }

  /** Filling an empty entry of a row with a nonzero number removes one 0. */
  lemma {:induction false} ZerosInPlace(row: seq<int>, c: nat, v: int)
    requires c < |row| && row[c] == 0 && v != 0
    ensures ZerosIn(row[c := v]) + 1 == ZerosIn(row)
  {
    if c > 0 {
      ZerosInPlace(row[1..], c - 1, v);
      assert row[c := v][1..] == row[1..][c - 1 := v];
    } else {
      assert row[c := v][1..] == row[1..];
    }
  }

  /** Replacing one row changes the count by the difference of the two rows' counts. */
  lemma {:induction false} HeuristicReplaceRow(state: Grid, r: nat, row: seq<int>)
    requires r < |state|
    ensures Heuristic(state[r := row]) + ZerosIn(state[r]) == Heuristic(state) + ZerosIn(row)
  {
    if r > 0 {
      HeuristicReplaceRow(state[1..], r - 1, row);
      assert state[r := row][1..] == state[1..][r - 1 := row];
    } else {
      assert state[r := row][1..] == state[1..];
    }
  }

  /** Placing a nonzero number in an empty cell lowers the heuristic by exactly one. */
  lemma HeuristicPlace(state: Grid, a: Action)
    requires a.row < |state| && a.col < |state[a.row]| && state[a.row][a.col] == 0 && a.num != 0
    ensures Heuristic(ApplyAction(state, a)) + 1 == Heuristic(state)
  {
    ZerosInPlace(state[a.row], a.col, a.num);
    HeuristicReplaceRow(state, a.row, state[a.row][a.col := a.num]);
  }

  // ---------------------------------------------------------------------------
  // The problem handed to a_star

  /** apply_action, answering with the grid unchanged for a cell outside it. */
  function Apply(state: Grid, a: Action): (next: Grid)
    ensures a.row < |state| && a.col < |state[a.row]| ==> next == ApplyAction(state, a)
  {
    if a.row < |state| && a.col < |state[a.row]| then ApplyAction(state, a) else state
  }

  /** Sudoku(grid, size, block) as the engine sees it. */
  function SudokuProblem(grid: Grid, size: nat, block: nat): (p: Problem<Grid, Action, Grid>)
    requires BlockShape(size, block)
    ensures p.initial == grid
    ensures forall s :: WellFormed(s, size) ==> p.actions(s) == Actions(s, size, block)
    ensures forall s :: WellFormed(s, size) ==> (p.isGoal(s) <==> IsGoal(s, size, block))
    ensures forall s, a :: p.apply(s, a) == Apply(s, a)
    ensures forall s :: p.key(s) == StateToHashable(s)
  {
    Problem(
      grid,
      s => if WellFormed(s, size) then Actions(s, size, block) else [],
      (s, a) => Apply(s, a),
      s => WellFormed(s, size) && IsGoal(s, size, block),
      s => StateToHashable(s))
  }

  /** state_to_hashable is canonical, so the engine's exhaustion result applies to Sudoku. */
  lemma SudokuKeyInjective(grid: Grid, size: nat, block: nat)
    requires BlockShape(size, block)
    ensures KeyInjective(SudokuProblem(grid, size, block))
  {
    var p := SudokuProblem(grid, size, block);
    forall s, t | p.key(s) == p.key(t)
      ensures s == t
    {
      HashableInjective(s, t);
    }
  }

  /**
   * One move fills exactly one empty cell with a number from 1 to size: the
   * grid keeps its shape and its filled cells, the heuristic drops by one, and
   * rows, columns and blocks that were all unique stay so.
   */
  lemma StepFillsOneCell(grid: Grid, size: nat, block: nat, s: Grid, t: Grid)
    requires BlockShape(size, block) && WellFormed(s, size)
    requires Step(SudokuProblem(grid, size, block), s, t)
    ensures WellFormed(t, size)
    ensures Heuristic(t) + 1 == Heuristic(s)
    ensures forall r, c :: 0 <= r < size && 0 <= c < size && s[r][c] != 0 ==> t[r][c] == s[r][c]
    ensures AllUnique(s, size, block) ==> AllUnique(t, size, block)
  {
    var p := SudokuProblem(grid, size, block);
    var a :| a in p.actions(s) && p.apply(s, a) == t;
    assert a in Actions(s, size, block);
    ActionFillsOneCell(s, size, block, a);
  }

  /** The same, for one action of get_actions. */
  lemma ActionFillsOneCell(s: Grid, size: nat, block: nat, a: Action)
    requires BlockShape(size, block) && WellFormed(s, size) && a in Actions(s, size, block)
    ensures WellFormed(ApplyAction(s, a), size)
    ensures Heuristic(ApplyAction(s, a)) + 1 == Heuristic(s)
    ensures forall r, c :: 0 <= r < size && 0 <= c < size && s[r][c] != 0 ==> ApplyAction(s, a)[r][c] == s[r][c]
    ensures AllUnique(s, size, block) ==> AllUnique(ApplyAction(s, a), size, block)
  {
    HeuristicPlace(s, a);
    if AllUnique(s, size, block) {
      ActionKeepsUnique(s, size, block, a);
    }
  }

  /** The givens of grid are the cells it does not leave empty. */
  ghost predicate KeepsGivens(grid: Grid, size: nat, t: Grid)
    requires WellFormed(grid, size) && WellFormed(t, size)
  {
    forall r, c :: 0 <= r < size && 0 <= c < size && grid[r][c] != 0 ==> t[r][c] == grid[r][c]
  }

  /** What m moves from the puzzle leave: the shape, the givens, m empty cells fewer, and uniqueness. */
  ghost predicate Reached(grid: Grid, size: nat, block: nat, t: Grid, m: int) {
    BlockShape(size, block) && WellFormed(grid, size) && WellFormed(t, size) &&
    KeepsGivens(grid, size, t) && Heuristic(t) + m == Heuristic(grid) &&
    (AllUnique(grid, size, block) ==> AllUnique(t, size, block))
  }

  /** One more move from a grid m moves from the puzzle gives a grid m + 1 moves from it. */
  lemma StepReached(grid: Grid, size: nat, block: nat, s: Grid, t: Grid, m: int)
    requires Reached(grid, size, block, s, m) && Step(SudokuProblem(grid, size, block), s, t)
    ensures Reached(grid, size, block, t, m + 1)
  {
    StepFillsOneCell(grid, size, block, s, t);
  }

  /**
   * Along any sequence of moves from the puzzle, the m-th grid keeps the
   * givens, has m empty cells fewer, and stays unique if the puzzle was.
   */
  lemma PathFillsGrid(grid: Grid, size: nat, block: nat, path: seq<Grid>, m: int)
    requires BlockShape(size, block) && WellFormed(grid, size)
    requires IsPath(SudokuProblem(grid, size, block), path) && 0 <= m < |path|
    ensures Reached(grid, size, block, path[m], m)
  {
    var p := SudokuProblem(grid, size, block);
    var inv := (t, d) => Reached(grid, size, block, t, d);
    forall s, t, d | inv(s, d) && Step(p, s, t)
      ensures inv(t, d + 1)
    {
      StepReached(grid, size, block, s, t, d);
    }
    PathInvariant(p, path, inv, m);
  }

  /**
   * a_star(Sudoku(grid), heuristic): a returned path starts at the puzzle,
   * ends in a solved grid that keeps every given, and takes exactly one step
   * per empty cell of the puzzle; when the search gives up with iterations to
   * spare, no sequence of moves from the puzzle leads to a solved grid.
   */
  method SolveAStar(grid: Grid, size: nat, block: nat, iterationLimit: int)
    returns (solution: Option<seq<Grid>>, metrics: Metrics)
    requires WellFormed(grid, size) && BlockShape(size, block)
    ensures solution.Some? ==> IsPath(SudokuProblem(grid, size, block), solution.value)
    ensures solution.Some? ==>
              var path := solution.value;
              |path| >= 1 && path[0] == grid &&
              WellFormed(path[|path| - 1], size) && IsGoal(path[|path| - 1], size, block) &&
              KeepsGivens(grid, size, path[|path| - 1]) &&
              |path| - 1 == Heuristic(grid)
    ensures solution.None? && metrics.nodesExpanded < iterationLimit ==>
              GoalUnreachable(SudokuProblem(grid, size, block))
    ensures metrics.nodesExpanded <= metrics.nodesGenerated
    ensures metrics.nodesExpanded <= (if iterationLimit < 0 then 0 else iterationLimit)
  {
    var p := SudokuProblem(grid, size, block);
    solution, metrics := Search(p, Heuristic, iterationLimit);
    SudokuKeyInjective(grid, size, block);
    if solution.Some? {
      var path := solution.value;
      PathFillsGrid(grid, size, block, path, |path| - 1);
      var last := path[|path| - 1];
      assert p.isGoal(last);
      HeuristicZero(last);
    }
  }

  /**
   * `a_star(Sudoku(puzzle), heuristic)` as the drivers call it: a 9 by 9 grid
   * with blocks of 3 (the constructor's defaults) and the default iteration
   * limit. A solution takes one step per empty cell of the puzzle.
   */
  method SolveWithDefaults(grid: Grid) returns (solution: Option<seq<Grid>>, metrics: Metrics)
    requires WellFormed(grid, 9)
    ensures solution.Some? ==> IsPath(SudokuProblem(grid, 9, 3), solution.value)
    ensures solution.Some? ==>
              var path := solution.value;
              |path| >= 1 && path[0] == grid &&
              WellFormed(path[|path| - 1], 9) && IsGoal(path[|path| - 1], 9, 3) &&
              KeepsGivens(grid, 9, path[|path| - 1]) &&
              |path| - 1 == Heuristic(grid)
    ensures solution.None? && metrics.nodesExpanded < DefaultIterationLimit ==>
              GoalUnreachable(SudokuProblem(grid, 9, 3))
    ensures metrics.nodesExpanded <= metrics.nodesGenerated && metrics.nodesExpanded <= DefaultIterationLimit
  {
    solution, metrics := SolveAStar(grid, 9, 3, DefaultIterationLimit);
  }
}
