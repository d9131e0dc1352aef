# A* and SAT Sudoku solvers, modelled in Dafny

This project models the three algorithmic parts of a small Sudoku-solving
homework repository and proves what each promises.

- **The generic A\* engine** (`a_star.py`), in module `AStar` (`astar.dfy`).
  - A problem is a value holding:
    - an initial state;
    - its actions;
    - the state an action leads to;
    - a goal test;
    - a canonical key.
  - Nodes are kept in an arena that only grows. A node's parent is the index of an earlier node, so `reconstruct_path` always terminates.
  - The frontier is a sequence of arena indices and the explored set holds keys.
  - `Search` is the `while frontier` loop with its iteration cap, counters and frontier/explored reconciliation. Its loop invariants hold:
    - frontier keys are pairwise distinct;
    - no frontier key is explored;
    - every key ever reached is in the frontier or explored;
    - `nodes_generated` is the arena size;
    - `nodes_expanded` is the loop counter;
    - the frontier never outgrows `max_frontier_size`.
  - From these, `Search` proves:
    - a returned path is a path of moves from the initial state to a goal;
    - the counters are bounded;
    - a non-positive iteration limit, and an initial state that is already a goal, give exact results;
    - when the frontier runs dry before the limit and keys are canonical, no sequence of moves reaches a goal.
- **The Sudoku problem** (`sudoku.py`), in module `Sudoku` (`sudoku.dfy`).
  - Grids are `seq<seq<int>>`, with 0 for an empty cell.
  - `is_goal`, `is_valid`, `get_actions` and `sudoku_parser` are methods whose loops mirror the source. Each is proved equal to a predicate or function that says what it computes.
  - Properties proved:
    - `is_unique` means "the nonzero entries are pairwise distinct";
    - `is_valid` means "not in the row, the column or the block";
    - `get_actions` proposes exactly the valid numbers, in ascending order, for the first empty cell in row-major order;
    - applying one of its actions keeps every row, column and block unique;
    - parsing and rendering a puzzle line are inverse to each other, up to writing `0` as `.`.
- **Sudoku as an A\* instance**, in module `SudokuSearch` (`sudoku_search.dfy`).
  - The heuristic counts empty cells. It is 0 exactly on full grids and drops by one with every move.
  - Every move keeps the givens.
  - A path returned by A\* ends in a solved grid that keeps the puzzle's givens, after exactly as many moves as the puzzle has empty cells.
  - When A\* gives up with iterations to spare, the puzzle has no solution reachable by its moves.
- **The CNF encoding of `solve_sudoku_sat`** (`sat_solver.py`), in module `SatEncoding` (`sat.dfy`).
  - Each rule family is a function written as its loops append. The loops themselves are methods proved to build exactly that list.
  - Membership lemmas characterise every clause of every rule.
  - The model-decoding loop is proved to compute "the last number whose variable is true".
- **What the encoding means**, in module `SatSoundness` (`sat_sound.dfy`).
  - Soundness: any consistent model of the six clause lists decodes to a grid on which `is_goal` holds and that keeps the givens.
  - Completeness: every solved grid that keeps the givens gives such a model, and decoding it gives the grid back.
- **Helpers**, in module `Common` (`common.dfy`): an option type, and concatenations over a range and over a strided range.

## Model

| member | source | states |
|---|---|---|
| `AStar.ChildNode` | a_star.py:14-18 | the child's parent is the expanded node, `g` is the parent's `g` plus one, `f = g + h`, its state is the action applied to the parent's state, and an offered action makes it one move away |
| `AStar.ArenaGrows` | a_star.py:56-58 | appending a generated child keeps every node linked to an earlier parent by a move, with `g` one more than the parent's |
| `AStar.PathSound` | a_star.py:86-91 | the states met walking parent links from a node, read from the root, form a path of moves from the initial state, of length `g + 1`, ending in the node's state |
| `AStar.Reverse` | a_star.py:91 | `path[::-1]`: same length, element k is element `len - 1 - k` of the input |
| `AStar.ReconstructPath` | a_star.py:86-91 | the appending loop followed by the reversal yields exactly the root-to-node path of PathSound |
| `AStar.MinFPosition` | a_star.py:41 | the popped position is in the frontier and its node's `f` is at most every frontier node's `f` |
| `AStar.FindInFrontier` | a_star.py:61-68 | the scan stops at the first frontier node with the child's key, and finds none exactly when no frontier node has that key |
| `AStar.AddChild` | a_star.py:57-71 | one child: the arena grows by the child; a same-key frontier node is replaced only when the child's `g` is strictly smaller; a new key is pushed only if not explored; no key leaves the frontier; every entry of the new frontier was there before or is the child; the child's key ends up explored or in the frontier; the reconciliation invariant is kept |
| `AStar.ReplaceKeeps` | a_star.py:65-67 | removing the same-key node and pushing the child keeps the frontier keys distinct and unexplored and loses no key |
| `AStar.PushKeeps` | a_star.py:70-71 | pushing a child whose key is neither explored nor in the frontier keeps the frontier keys distinct and unexplored |
| `AStar.AddSuccessor` | a_star.py:56-71 | one pass of the loop over actions: the arena grows by the child and stays linked, the reconciliation invariant is kept, the child's key is reached, no frontier key is lost, and the only entry that can join the frontier is the child |
| `AStar.ExpandNode` | a_star.py:55-71 | one expansion generates one node per action and counts it, keeps the arena linked and the reconciliation invariant, and marks every successor's key as reached; every key in the frontier before the expansion is still in it afterwards, and every frontier entry that was not there before is a node generated by this expansion |
| `AStar.PopKeeps` | a_star.py:41-52 | popping a frontier node and adding its key to `explored` keeps the frontier keys distinct and unexplored, and every reached key still frontier or explored |
| `AStar.ClosedHoldsPath` | a_star.py:52-71 | when the expanded states are closed under moves, every state on a path from the initial state is one of them |
| `AStar.ExhaustedMeansUnreachable` | a_star.py:79-83 | an empty frontier, with canonical keys, means no path from the initial state ends in a goal |
| `AStar.Search` | a_star.py:21-83 | a returned path is a path of moves from the initial state ending in a goal; expanded never exceeds generated or the iteration limit; generated and max frontier are at least 1; a non-positive limit returns `None` with counters (1, 0, 1); a goal initial state with limit at least 1 returns `[initial]` with (1, 1, 1); `None` with iterations to spare and canonical keys means no goal is reachable |
| `Sudoku.NonZerosCounts` | sudoku.py:46 | the filter keeps every nonzero number as often as it occurs and drops every 0 |
| `Sudoku.IsUniqueCounts` | sudoku.py:44-47 | `len(nums) == len(set(nums))` after filtering holds iff no nonzero number occurs twice |
| `Sudoku.IsUniqueIff` | sudoku.py:44-47 | `is_unique` holds iff the nonzero entries at different positions are different |
| `Sudoku.UniqueAfterPlace` | sudoku.py:44-47 | putting a number absent from a unique list into one of its empty places keeps it unique |
| `Sudoku.Column` | sudoku.py:34 | the column comprehension has `size` entries, entry i being row i's cell |
| `Sudoku.BlockCells` | sudoku.py:39 | the block comprehension visits `block * block` cells in row-major order, all inside the block |
| `Sudoku.BlockValues` | sudoku.py:39 | the block list holds the grid's values at those cells, in that order |
| `Sudoku.InBlockValues` | sudoku.py:37-41 | a value is in the block list iff some cell of the block holds it |
| `Sudoku.IsGoalCheck` | sudoku.py:25-42 | the loops with early returns answer true iff no cell is 0 and every row, column and block starting at multiples of `block` passes `is_unique` |
| `Sudoku.IsValidCheck` | sudoku.py:49-62 | the membership tests and block loops answer true iff `num` is in neither the row, the column, nor the block at `(row - row % block, col - col % block)` |
| `Sudoku.IsValidIff` | sudoku.py:49-62 | `is_valid` is false iff `num` is in the row list, the column list or the block list |
| `Sudoku.FirstEmptyFrom` | sudoku.py:9-11 | the row-major scan finds an empty cell with no empty cell before it, or reports that none is left |
| `Sudoku.Candidates` | sudoku.py:12-14 | the numbers proposed for a cell are exactly those from 1 to n that `is_valid` accepts, in ascending order |
| `Sudoku.Actions` | sudoku.py:7-16 | the actions are for the first empty cell only, are valid and between 1 and `size`, include every valid number, come in ascending order; they are empty when the grid has no 0, and also when its first empty cell admits no number |
| `Sudoku.GetActions` | sudoku.py:7-16 | the loops with the early return build exactly Actions |
| `Sudoku.ApplyAction` | sudoku.py:18-23 | the new grid has the same shape and equals the old one at every cell but the action's, which holds `num` |
| `Sudoku.StateToHashable` | sudoku.py:64-65 | the tuple of row tuples has the grid's rows |
| `Sudoku.HashableInjective` | sudoku.py:64-65 | two grids have the same key iff they are equal |
| `Sudoku.ValidNotInBlock` | sudoku.py:56-61 | a number `is_valid` accepts is absent from the cell's block list |
| `Sudoku.PlaceInBlock` | sudoku.py:18-23 | placing a valid number keeps the block containing the cell unique |
| `Sudoku.PlaceOutsideBlock` | sudoku.py:18-23 | placing a number outside a block leaves that block list unchanged |
| `Sudoku.PlaceKeepsBlock` | sudoku.py:37-41 | placing a valid number in an empty cell keeps every unique block unique |
| `Sudoku.PlaceKeepsLines` | sudoku.py:30-35 | placing a valid number in an empty cell keeps unique rows and columns unique |
| `Sudoku.ActionKeepsUnique` | sudoku.py:13-23 | applying an action of `get_actions` to a grid whose rows, columns and blocks are unique keeps them unique |
| `Sudoku.CellOf` | sudoku.py:124-128 | `.` gives 0 and a digit character gives its value (`int(char)`), so a cell's value is between 0 and 9, and 0 exactly for `.` or `0` |
| `Sudoku.ParseGrid` | sudoku.py:119-130 | a 9 by 9 grid whose cell (i, j) is CellOf of character `i*9 + j`: 0 for `.`, the digit's value otherwise |
| `Sudoku.ParseLine` | sudoku.py:119-130 | the appending loops build exactly ParseGrid |
| `Sudoku.ParseRender` | sudoku.py:139-140 | a 9 by 9 grid of values 0 to 9, written out, passes the filter and parses back to itself |
| `Sudoku.RenderParse` | sudoku.py:119-130 | an accepted line parses to a grid that writes back to the same line, with `0` written as `.` |
| `SudokuSearch.ZerosInNone` | a_star.py:95 | `row.count(0)` is 0 iff 0 is not in the row |
| `SudokuSearch.HeuristicZero` | a_star.py:94-95 | the heuristic is 0 iff the grid has no empty cell |
| `SudokuSearch.ZerosInPlace` | a_star.py:95 | filling an empty entry with a nonzero number lowers the row's count by one |
| `SudokuSearch.HeuristicReplaceRow` | a_star.py:94-95 | replacing a row changes the count by the difference of the two rows' counts |
| `SudokuSearch.HeuristicPlace` | a_star.py:94-95 | `apply_action` putting a nonzero number in an empty cell lowers the heuristic by exactly one |
| `SudokuSearch.Apply` | sudoku.py:18-23 | on a cell of the grid the engine's apply is `apply_action` |
| `SudokuSearch.SudokuProblem` | sudoku.py:1-23 | the problem given to A\* starts at the puzzle, and on well-formed grids offers `get_actions`, tests `is_goal`, applies `apply_action` and keys by `state_to_hashable` |
| `SudokuSearch.SudokuKeyInjective` | sudoku.py:64-65 | the Sudoku key is canonical, as the engine's unreachability result needs |
| `SudokuSearch.ActionFillsOneCell` | sudoku.py:7-23 | one action keeps the shape and the filled cells, lowers the heuristic by one, and keeps uniqueness |
| `SudokuSearch.StepFillsOneCell` | sudoku.py:7-23 | the same for any move of the problem from a well-formed grid |
| `SudokuSearch.StepReached` | sudoku.py:7-23 | a grid m moves from the puzzle, moved once more, is m + 1 moves from it |
| `SudokuSearch.PathFillsGrid` | a_star.py:55-57 | the m-th grid of any path of moves from the puzzle keeps the shape and the givens, has m empty cells fewer, and is unique if the puzzle was |
| `SudokuSearch.SolveAStar` | a_star.py:21-83 | a solution path is a path of moves of the Sudoku problem: it starts at the puzzle, ends in a grid where `is_goal` holds and the givens are kept, and has one move per empty cell; `None` with iterations to spare means no solved grid is reachable; expanded never exceeds generated or the iteration limit |
| `SudokuSearch.SolveWithDefaults` | main.py:20-21 | `a_star(Sudoku(puzzle), heuristic)` with the defaults of sudoku.py:2 (size 9, block 3) and a_star.py:21 (limit 500000): a solution is a path of moves ending in a solved grid keeping the givens, reached in one step per empty cell; at most 500000 nodes are expanded; `None` before the limit means no solution is reachable |
| `SatEncoding.VarDigits` | sat_solver.py:20-21 | `var(i, j, n) - 1` written in base `size` has digits i, j and `n - 1` |
| `SatEncoding.VarRange` | sat_solver.py:20-21 | for cells and numbers in range, `var` lies in `1..size³` |
| `SatEncoding.VarInjective` | sat_solver.py:20-21 | for cells and numbers in range, equal variables mean equal cell and number |
| `SatEncoding.ISqrt` | sat_solver.py:61 | the integer square root: `r² <= n < (r + 1)²` |
| `SatEncoding.ISqrtOfSquare` | sat_solver.py:61 | the block side of a square grid side `b²` is b |
| `SatEncoding.AtMostOneMember` | sat_solver.py:33-36 | the pairwise loops add `[-x, -y]` exactly for the pairs at positions `a < b` of the variable list |
| `SatEncoding.AtMostOneLength` | sat_solver.py:33-34 | the pairwise loops add `k(k - 1)/2` clauses for k variables |
| `SatEncoding.AppendAtMostOne` | sat_solver.py:33-36 | the nested loops append exactly those clauses |
| `SatEncoding.Grid2Member` | sat_solver.py:24-25 | a clause is added by the `i, j` double loop iff some cell's body adds it |
| `SatEncoding.Grid2Length` | sat_solver.py:24-25 | a double loop whose body adds n clauses adds `size² · n` |
| `SatEncoding.CellVars` | sat_solver.py:26 | the clause of a cell lists `var(i, j, 1..size)` in order |
| `SatEncoding.RowVars` | sat_solver.py:41-44 | the variables of number n along row i, column by column |
| `SatEncoding.ColVars` | sat_solver.py:48-51 | the variables of number n down column j, row by row |
| `SatEncoding.Rule1Member` | sat_solver.py:23-28 | rule 1 is one clause per cell, exactly the cell's positive literals, `size²` in all |
| `SatEncoding.Rule2Member` | sat_solver.py:30-36 | rule 2 clauses are exactly `[-var(i,j,a), -var(i,j,b)]` for a cell and `1 <= a < b <= size` |
| `SatEncoding.Rule2Length` | sat_solver.py:30-36 | rule 2 has `size² · size(size - 1)/2` clauses |
| `SatEncoding.Rule3Length` | sat_solver.py:38-44 | rule 3 has `size² · size(size - 1)/2` clauses |
| `SatEncoding.Rule3Member` | sat_solver.py:38-44 | rule 3 clauses are exactly the negated pairs of one number in two columns `j1 < j2` of one row |
| `SatEncoding.Rule4Length` | sat_solver.py:45-51 | rule 4 has `size² · size(size - 1)/2` clauses |
| `SatEncoding.Rule4Member` | sat_solver.py:45-51 | rule 4 clauses are exactly the negated pairs of one number in two rows `i1 < i2` of one column |
| `SatEncoding.Rule5Member` | sat_solver.py:53-58 | rule 5 is exactly one unit clause `[var(i, j, grid[i][j])]` per nonzero cell |
| `SatEncoding.AddRule1` | sat_solver.py:23-28 | the loops build exactly rule 1 |
| `SatEncoding.AddRule2` | sat_solver.py:30-36 | the loops build exactly rule 2 |
| `SatEncoding.AddRule3` | sat_solver.py:38-44 | the loops build exactly rule 3 |
| `SatEncoding.AddRule4` | sat_solver.py:45-51 | the loops build exactly rule 4 |
| `SatEncoding.AddRule5` | sat_solver.py:53-58 | the loops build exactly rule 5 |
| `SatEncoding.BlockCellListIs` | sat_solver.py:67-71 | the collected block cells are the block's cells in row-major order, the same list `is_goal` scans |
| `SatEncoding.BlockVars` | sat_solver.py:75-78 | the variables of number n over the block's cells, in the same order |
| `SatEncoding.StridedCorner` | sat_solver.py:64-65 | `range(0, size, block_size)` visits exactly the multiples of the block side below `size` |
| `SatEncoding.Rule6BlockMember` | sat_solver.py:66-78 | a block adds exactly the negated pairs of one number in two of its cells at list positions `a < b` |
| `SatEncoding.Rule6Member` | sat_solver.py:63-78 | rule 6 is exactly those pairs over all blocks whose corners are multiples of the block side |
| `SatEncoding.Rule6BlockLength` | sat_solver.py:66-78 | one block contributes `size · b²(b² - 1)/2` clauses: one per number and pair of its `b²` cells |
| `SatEncoding.Rule6Length` | sat_solver.py:63-78 | with `c = ceil(size / b)` block corners along each side (b the block side), rule 6 has `c² · size · b²(b² - 1)/2` clauses; for size 9 and block 3 that is 9 · 9 · 36 |
| `SatEncoding.CollectBlockCells` | sat_solver.py:67-71 | the loops collect exactly the block's cell list |
| `SatEncoding.AppendBlockClauses` | sat_solver.py:66-78 | the loops over numbers and pairs append exactly one block's clauses |
| `SatEncoding.AppendRowClauses` | sat_solver.py:65-78 | the `bj` loop appends exactly one band of blocks' clauses |
| `SatEncoding.AddRule6` | sat_solver.py:63-78 | the loops build exactly rule 6 |
| `SatEncoding.LastTrue` | sat_solver.py:87-89 | the decoded number is the largest n whose variable is true, or 0 when none is |
| `SatEncoding.Decode` | sat_solver.py:84-89 | the decoded grid is `size` by `size`, each cell holding the last true number |
| `SatEncoding.DecodeExactlyOne` | sat_solver.py:84-89 | when exactly one variable of a cell is true, its number is decoded |
| `SatEncoding.DecodeModel` | sat_solver.py:84-89 | the overwriting loop computes exactly Decode |
| `SatEncoding.AllMember` | sat_solver.py:14 | a clause goes to the solver iff it is in one of the six lists |
| `SatEncoding.BlockSide` | sat_solver.py:61 | the block side is at least 1 and its square is at most `size` |
| `SatEncoding.SolveSudokuSat` | sat_solver.py:13-92 | the six lists are the encoding of the puzzle; the solution is absent iff the solver found no model, and otherwise is the decoded model |
| `SatEncoding.SolveAsWritten` | sat_solver.py:82-92 | as written: a bare `None` iff the solver found no model, otherwise the pair of decoded grid and clauses |
| `SatEncoding.UnpackAtCaller` | main.py:10 | the caller's two-name unpacking fails exactly when it is handed a bare `None` |
| `SatEncoding.UnsatResult` | sat_solver.py:91-92 | on an unsatisfiable puzzle the as-written result cannot be unpacked, while the corrected one yields no grid |
| `SatSoundness.NotBothHolds` | sat_solver.py:35 | a consistent model of `[-x, -y]` does not make both x and y true |
| `SatSoundness.CellDecoded` | sat_solver.py:23-36 | under rules 1 and 2 each cell has exactly one true variable; its number is in 1..size and is what gets decoded |
| `SatSoundness.DecodedRowUnique` | sat_solver.py:38-44 | under rule 3 each decoded row passes `is_unique` |
| `SatSoundness.DecodedColumnUnique` | sat_solver.py:45-51 | under rule 4 each decoded column passes `is_unique` |
| `SatSoundness.DecodedBlockUnique` | sat_solver.py:63-78 | under rule 6 each decoded block passes `is_unique` |
| `SatSoundness.DecodedGiven` | sat_solver.py:53-58 | under rule 5 a given cell decodes to its given |
| `SatSoundness.SquareBlockShape` | sat_solver.py:61 | for a perfect-square side the block side tiles the grid |
| `SatSoundness.DecodedFilled` | sat_solver.py:23-58 | rules 1, 2 and 5 give a decoded grid with no empty cell that keeps every given |
| `SatSoundness.DecodedUnique` | sat_solver.py:38-78 | rules 3, 4 and 6 give a decoded grid whose rows, columns and blocks are unique |
| `SatSoundness.DecodeSolves` | sat_solver.py:13-90 | soundness: a consistent model of all clauses decodes to a grid where `is_goal` holds and that keeps every given |
| `SatSoundness.LiteralOf` | sat_solver.py:20-21 | a grid's literal that equals `var(i, j, n)` is positive only if cell (i, j) holds n |
| `SatSoundness.ModelOfVar` | sat_solver.py:20-21 | in a grid's model, `var(i, j, n)` is true iff the cell holds n, and false otherwise |
| `SatSoundness.ModelOfConsistent` | sat_solver.py:20-21 | a grid's model never makes a variable both true and false |
| `SatSoundness.ModelOfCells` | sat_solver.py:23-36 | a filled grid's model satisfies rules 1 and 2 |
| `SatSoundness.ModelOfLines` | sat_solver.py:38-51 | a grid with unique rows and columns has a model that satisfies rules 3 and 4 |
| `SatSoundness.ModelOfBlocks` | sat_solver.py:63-78 | a grid with unique blocks has a model that satisfies rule 6 |
| `SatSoundness.ModelOfGivens` | sat_solver.py:53-58 | a grid that keeps the givens has a model that satisfies rule 5 |
| `SatSoundness.DecodeModelOf` | sat_solver.py:84-89 | decoding a filled grid's model gives the grid back |
| `SatSoundness.SolutionGivesModel` | sat_solver.py:13-90 | completeness: a solved grid that keeps the givens has a consistent model of all clauses, and that model decodes to it |

## Left out

- `Search`: `heapq` is not modelled.
  - `heappop` is modelled as taking the first frontier node of least `f`.
  - In the source, `frontier.remove` followed by `heappush` (a_star.py:66-67) can break the heap invariant, so the real pop may not return a least-`f` node after a replacement.
  - No stated property depends on which node is popped, except `MinFPosition`'s own contract.
- `Search`: nothing about optimality or admissibility of the heuristic. The code checks neither.
- `Search`: `max_frontier_size` bounding the frontier after every expansion is a loop invariant. The ensures state only that it is at least 1, because the frontier is local to the loop.
- The `verbose` and limit `print` calls in `a_star` are left out, and so is `print_clauses`: they are output only.
- Left out as I/O, randomness or driver code:
  - `generate_random_sudoku_grid` (it uses `random`);
  - `pretty_print`;
  - the solution checker in `sudoku.py`;
  - `get_sudokus_from_web`, which fetches from the network and calls `strip`;
  - the `__main__` blocks;
  - `main.py` and `tester.py`, apart from two things they do, which are modelled:
    - the unpacking `solution, clauses = solve_sudoku_sat(puzzle)` (main.py:10, tester.py:42), modelled by `UnpackAtCaller`;
    - the call `a_star(Sudoku(puzzle), heuristic)` with the default size, block and iteration limit (main.py:20-21, tester.py:19-22), modelled by `SolveWithDefaults`.
- Glucose3 is not modelled.
  - The clauses are what it is given.
  - Its answer is an input: `None` when it reports unsatisfiable, otherwise the set of literals of its model. The source tests `var in model` on the returned list, which is the same as membership in that set.
- `ISqrt`: `int(size**0.5)` is a floating-point square root. It is modelled as the exact integer square root; the two agree on perfect squares such as 4, 9 and 16.
- `IsDigit`: Python's `str.isdigit` also accepts non-ASCII digits. The model accepts only `0` to `9`.
- `ParseGrid`: requires 81 characters, each a digit or `.`. The source raises an exception on a shorter line or another character; the model does not describe that exception.
- `SudokuProblem`: the engine needs total functions. On a grid of the wrong shape the problem offers no action and no goal, and `Apply` leaves a grid unchanged for a cell outside it. Search from a well-formed puzzle never reaches such grids.
- The `Sudoku` class never changes `size`, `block` or `initial_state` after construction, so they are parameters, not fields of a class.
- `BlockShape`: the Sudoku theorems assume the block side is positive and divides `size`. With any other block the source can raise an exception: for block 0, `range(0, size, 0)` and `row % 0` raise (sudoku.py:37, sudoku.py:57); for a block that does not divide `size`, the last block's loops index past the grid's end.
- `DecodeSolves` and `SolutionGivesModel` assume:
  - a block side that tiles the grid;
  - givens between 0 and `size`.
  With a given above `size`, rule 5 names a variable of another cell.
- `SolveSudokuSat`: an empty grid is excluded. With `size` 0, `range(0, 0, 0)` raises an exception in the source.

## Findings

| source | as written | input that shows it | evidently intended | confidence | as-written member | corrected member |
|---|---|---|---|---|---|---|
| sat_solver.py:91-92 | when the solver finds no model the function returns a bare `None`, while every caller unpacks `solution, clauses = solve_sudoku_sat(puzzle)` (main.py:10, tester.py:42, sat_solver.py:103) | any unsatisfiable puzzle, for example a 9 by 9 grid with two 5s given in its first row: the unpacking raises instead of reporting no solution | return `(None, clauses)`, so that callers get the clauses and test `if solution:` | not executed | `SatEncoding.UnsatResult` | `SatEncoding.SolveSudokuSat` |
