/**
 * The Sudoku problem of sudoku.py.
 *
 * A grid is a sequence of rows of integers, 0 meaning an empty cell. The
 * class Sudoku never changes its fields after construction, so its size and
 * block side are passed here as parameters. Each operation the source writes
 * as loops with early returns is a method proved equal to a predicate or
 * function that states what it computes; the search engine uses those
 * functions.
 */
module Sudoku {
  import opened Common

  type Grid = seq<seq<int>>

  /** A (row, column) position, as the tuples of the source. */
  type Cell = (int, int)

  /** The tuple (i, j, num): put num in row i, column j. */
  datatype Action = Action(row: nat, col: nat, num: int)

  /** size rows of size cells each. */
  predicate WellFormed(state: Grid, size: nat) {
    |state| == size && forall r :: 0 <= r < size ==> |state[r]| == size
  }

  /** The block side is positive and divides the grid side, so blocks tile the grid. */
  predicate BlockShape(size: nat, block: nat) {
    block > 0 && size % block == 0
  }

  // ---------------------------------------------------------------------------
  // Arithmetic on block corners

  lemma MulLe(a: int, b: int, c: int)
    requires a <= b && c >= 0
    ensures a * c <= b * c
  {
    assert b * c - a * c == (b - a) * c;
  }

  /** A multiple of the block side below the grid side starts a block that fits in the grid. */
  lemma BlockFits(size: nat, block: nat, bi: int)
    requires BlockShape(size, block) && 0 <= bi < size && bi % block == 0
    ensures bi + block <= size
  {
    var q, qs := bi / block, size / block;
    assert bi == q * block && size == qs * block;
    if q >= qs {
      MulLe(qs, q, block);
    } else {
      MulLe(q + 1, qs, block);
      assert (q + 1) * block == q * block + block;
    }
  }

  /** The block containing row r starts at the one multiple of the block side in (r - block, r]. */
  lemma BlockStartOf(r: int, bi: int, block: nat)
    requires block > 0 && bi % block == 0 && bi <= r < bi + block
    ensures r - r % block == bi
  {
    var q := bi / block;
    assert bi == q * block;
    DivModOf(q, r - bi, block);
  }

  /** r - r % block is a multiple of the block side within block of r. */
  lemma BlockStartIs(r: nat, block: nat)
    requires block > 0
    ensures 0 <= r - r % block <= r < r - r % block + block && (r - r % block) % block == 0
  {
    var q := r / block;
    assert r - r % block == q * block;
    DivModOf(q, 0, block);
  }

  /** Two multiples of the block side less than block apart are equal. */
  lemma NoMultipleBetween(lo: int, x: int, block: nat)
    requires block > 0 && lo % block == 0 && x % block == 0 && lo <= x < lo + block
    ensures x == lo
  {
    BlockStartOf(x, lo, block);
  }

  lemma NextMultiple(x: int, block: nat)
    requires block > 0 && x % block == 0
    ensures (x + block) % block == 0
  {
    var q := x / block;
    assert x + block == (q + 1) * block;
    DivModOf(q + 1, 0, block);
  }

  // ---------------------------------------------------------------------------
  // is_unique

  /** [n for n in nums if n != 0] */
  function NonZeros(nums: seq<int>): seq<int>
  {
    if nums == [] then []
    else (if nums[0] != 0 then [nums[0]] else []) + NonZeros(nums[1..])
  }

  /** The filter keeps every nonzero value as often as it occurs, and drops every 0. */
  lemma {:induction false} NonZerosCounts(nums: seq<int>)
    ensures forall v :: v != 0 ==> multiset(NonZeros(nums))[v] == multiset(nums)[v]
    ensures multiset(NonZeros(nums))[0] == 0
  {
    if nums != [] {
      assert nums == [nums[0]] + nums[1..];
      NonZerosCounts(nums[1..]);
    }
  }

  /** is_unique: the nonzero entries are as many as the distinct nonzero entries. */
  predicate IsUnique(nums: seq<int>) {
    var nz := NonZeros(nums);
    |nz| == |set v | v in nz|
  }

  /** Each nonzero value occurs at most once. */
  ghost predicate AtMostOnce(nums: seq<int>) {
    forall v :: v != 0 ==> multiset(nums)[v] <= 1
  }

  /** Nonzero entries at different positions differ. */
  ghost predicate DistinctNonZero(nums: seq<int>) {
    forall a, b :: 0 <= a < b < |nums| && nums[a] != 0 ==> nums[a] != nums[b]
  }

  /** A list is as long as its set of elements exactly when no element repeats. */
  lemma {:induction false} SetOfSeq(s: seq<int>)
    ensures |set v | v in s| <= |s|
    ensures |set v | v in s| == |s| <==> forall v :: multiset(s)[v] <= 1
  {
    if s != [] {
      var t, x := s[..|s| - 1], s[|s| - 1];
      assert s == t + [x];
      SetOfSeq(t);
      assert (set v | v in s) == (set v | v in t) + {x};
      if x in t {
        assert (set v | v in s) == (set v | v in t);
        assert multiset(s)[x] == multiset(t)[x] + 1;
      } else {
        assert forall v :: multiset(s)[v] == multiset(t)[v] + (if v == x then 1 else 0);
      }
    }
  }

  /** is_unique holds exactly when each nonzero value occurs at most once. */
  lemma IsUniqueCounts(nums: seq<int>)
    ensures IsUnique(nums) <==> AtMostOnce(nums)
  {
    var nz := NonZeros(nums);
    NonZerosCounts(nums);
    SetOfSeq(nz);
  }

  lemma {:induction false} CountsPairwise(s: seq<int>)
    ensures AtMostOnce(s) <==> DistinctNonZero(s)
  {
    if s != [] {
      var t, x := s[..|s| - 1], s[|s| - 1];
      assert s == t + [x];
      CountsPairwise(t);
      assert forall v :: multiset(s)[v] == multiset(t)[v] + (if v == x then 1 else 0);
      if DistinctNonZero(s) {
        assert DistinctNonZero(t) by {
          forall a, b | 0 <= a < b < |t| && t[a] != 0
            ensures t[a] != t[b]
          {
            assert s[a] == t[a] && s[b] == t[b];
          }
        }
      }
      if AtMostOnce(s) {
        assert AtMostOnce(t);
        forall a, b | 0 <= a < b < |s| && s[a] != 0
          ensures s[a] != s[b]
        {
          if b < |t| {
            assert s[a] == t[a] && s[b] == t[b];
          } else {
            assert s[a] in t;
          }
        }
      }
    }
  }

  /** is_unique holds exactly when the nonzero entries are pairwise distinct; zeros are ignored. */
  lemma IsUniqueIff(nums: seq<int>)
    ensures IsUnique(nums) <==> DistinctNonZero(nums)
  {
    IsUniqueCounts(nums);
    CountsPairwise(nums);
  }

  /** Writing a value that is absent into a 0 entry keeps a list unique. */
  lemma UniqueAfterPlace(s: seq<int>, k: nat, v: int)
    requires IsUnique(s) && k < |s| && s[k] == 0 && v !in s
    ensures IsUnique(s[k := v])
  {
    var s' := s[k := v];
    IsUniqueIff(s);
    forall a, b | 0 <= a < b < |s'| && s'[a] != 0
      ensures s'[a] != s'[b]
    {
      if a == k {
        assert s[b] in s;
      } else if b == k {
        assert s[a] in s;
      }
    }
    IsUniqueIff(s');
  }

  // ---------------------------------------------------------------------------
  // Rows, columns and blocks

  /** [state[i][col] for i in range(size)] */
  function Column(state: Grid, size: nat, col: nat): (c: seq<int>)
    requires WellFormed(state, size) && col < size
    ensures |c| == size && forall i :: 0 <= i < size ==> c[i] == state[i][col]
  {
    seq(size, i requires 0 <= i < size => state[i][col])
  }

  /** The cells of the block whose top-left cell is (bi, bj), row by row. */
  function BlockCells(bi: int, bj: int, block: nat): (cells: seq<Cell>)
    requires block > 0
    ensures |cells| == block * block
    ensures forall k :: 0 <= k < block * block ==> cells[k] == (bi + k / block, bj + k % block)
    ensures forall k :: 0 <= k < block * block ==>
              bi <= cells[k].0 < bi + block && bj <= cells[k].1 < bj + block
  {
    forall k | 0 <= k < block * block
      ensures bi <= bi + k / block < bi + block && bj <= bj + k % block < bj + block
    {
      QuotientBelow(k, block);
    }
    seq(block * block, k => (bi + k / block, bj + k % block))
  }

  /** A position in a block of block * block cells has a row offset below block. */
  lemma QuotientBelow(k: int, block: nat)
    requires block > 0 && 0 <= k < block * block
    ensures 0 <= k / block < block && 0 <= k % block < block
  {
    if k / block >= block {
      MulLe(block, k / block, block);
    }
  }

  /** Every cell of a block appears in BlockCells, at position (r - bi) * block + (c - bj). */
  lemma BlockCellAt(bi: int, bj: int, block: nat, r: int, c: int)
    requires block > 0 && bi <= r < bi + block && bj <= c < bj + block
    ensures var k := (r - bi) * block + (c - bj);
            0 <= k < block * block && BlockCells(bi, bj, block)[k] == (r, c)
  {
    var k := (r - bi) * block + (c - bj);
    DivModOf(r - bi, c - bj, block);
    MulLe(r - bi, block - 1, block);
    assert (block - 1) * block + block == block * block;
  }

  /** No cell appears twice in BlockCells. */
  lemma BlockCellsDistinct(bi: int, bj: int, block: nat, k1: int, k2: int)
    requires block > 0 && 0 <= k1 < block * block && 0 <= k2 < block * block && k1 != k2
    ensures BlockCells(bi, bj, block)[k1] != BlockCells(bi, bj, block)[k2]
  {
    assert k1 == (k1 / block) * block + k1 % block;
    assert k2 == (k2 / block) * block + k2 % block;
  }

  /** [state[i][j] for i in range(bi, bi+block) for j in range(bj, bj+block)] */
  function BlockValues(state: Grid, size: nat, bi: nat, bj: nat, block: nat): (vals: seq<int>)
    requires WellFormed(state, size) && block > 0 && bi + block <= size && bj + block <= size
    ensures |vals| == block * block
    ensures forall k :: 0 <= k < block * block ==>
              vals[k] == state[BlockCells(bi, bj, block)[k].0][BlockCells(bi, bj, block)[k].1]
  {
    var cells := BlockCells(bi, bj, block);
    seq(block * block, k requires 0 <= k < block * block => state[cells[k].0][cells[k].1])
  }

  /** A value occurs in a block exactly when some cell of the block holds it. */
  lemma InBlockValues(state: Grid, size: nat, bi: nat, bj: nat, block: nat, v: int)
    requires WellFormed(state, size) && block > 0 && bi + block <= size && bj + block <= size
    ensures v in BlockValues(state, size, bi, bj, block) <==>
            exists i, j :: bi <= i < bi + block && bj <= j < bj + block && state[i][j] == v
  {
    var vals := BlockValues(state, size, bi, bj, block);
    if exists i, j :: bi <= i < bi + block && bj <= j < bj + block && state[i][j] == v {
      var i, j :| bi <= i < bi + block && bj <= j < bj + block && state[i][j] == v;
      BlockCellAt(bi, bj, block, i, j);
      assert vals[(i - bi) * block + (j - bj)] == v;
    }
    if v in vals {
      var k :| 0 <= k < |vals| && vals[k] == v;
      var cell := BlockCells(bi, bj, block)[k];
      assert state[cell.0][cell.1] == v;
    }
  }

  /** The block with top-left cell (bi, bj) passes is_unique. */
  predicate BlockUnique(state: Grid, size: nat, block: nat, bi: nat, bj: nat)
    requires WellFormed(state, size) && BlockShape(size, block)
    requires bi < size && bj < size && bi % block == 0 && bj % block == 0
  {
    BlockFits(size, block, bi);
    BlockFits(size, block, bj);
    IsUnique(BlockValues(state, size, bi, bj, block))
  }

  /** Every row, every column and every block (corners at multiples of block) passes is_unique. */
  predicate AllUnique(state: Grid, size: nat, block: nat)
    requires WellFormed(state, size) && BlockShape(size, block)
  {
    (forall i :: 0 <= i < size ==> IsUnique(state[i])) &&
    (forall j :: 0 <= j < size ==> IsUnique(Column(state, size, j))) &&
    (forall bi, bj :: 0 <= bi < size && 0 <= bj < size && bi % block == 0 && bj % block == 0 ==>
       BlockUnique(state, size, block, bi, bj))
  }

  /** No row contains 0. */
  predicate NoEmpty(state: Grid) {
    forall r, c :: 0 <= r < |state| && 0 <= c < |state[r]| ==> state[r][c] != 0
  }

  /** is_goal, as a predicate: no empty cell, and every row, column and block passes is_unique. */
  predicate IsGoal(state: Grid, size: nat, block: nat)
    requires WellFormed(state, size) && BlockShape(size, block)
  {
    NoEmpty(state) && AllUnique(state, size, block)
  }

  /** is_goal: the loops of the source, with their early returns. */
  method IsGoalCheck(state: Grid, size: nat, block: nat) returns (goal: bool)
    requires WellFormed(state, size) && BlockShape(size, block)
    ensures goal == IsGoal(state, size, block)
  {
    var r := 0;
    while r < |state|
      invariant 0 <= r <= |state|
      invariant forall r', c :: 0 <= r' < r && 0 <= c < |state[r']| ==> state[r'][c] != 0
    {
      if 0 in state[r] {
        return false;
      }
      r := r + 1;
    }
    var i := 0;
    while i < size
      invariant 0 <= i <= size
      invariant forall i' :: 0 <= i' < i ==> IsUnique(state[i'])
    {
      if !IsUnique(state[i]) {
        return false;
      }
      i := i + 1;
    }
    var j := 0;
    while j < size
      invariant 0 <= j <= size
      invariant forall j' :: 0 <= j' < j ==> IsUnique(Column(state, size, j'))
    {
      if !IsUnique(Column(state, size, j)) {
        return false;
      }
      j := j + 1;
    }
    var bi := 0;
    while bi < size
      invariant 0 <= bi <= size && bi % block == 0
      invariant forall bi', bj' :: 0 <= bi' < bi && 0 <= bj' < size && bi' % block == 0 && bj' % block == 0 ==>
                  BlockUnique(state, size, block, bi', bj')
    {
      BlockFits(size, block, bi);
      var bj := 0;
      while bj < size
        invariant 0 <= bj <= size && bj % block == 0
        invariant forall bi', bj' :: 0 <= bi' < bi && 0 <= bj' < size && bi' % block == 0 && bj' % block == 0 ==>
                    BlockUnique(state, size, block, bi', bj')
        invariant forall bj' :: 0 <= bj' < bj && bj' % block == 0 ==> BlockUnique(state, size, block, bi, bj')
      {
        BlockFits(size, block, bj);
        var values := BlockValues(state, size, bi, bj, block);
        if !IsUnique(values) {
          assert !BlockUnique(state, size, block, bi, bj);
          return false;
        }
        forall bj' | 0 <= bj' < bj + block && bj' % block == 0
          ensures BlockUnique(state, size, block, bi, bj')
        {
          if bj' >= bj {
            NoMultipleBetween(bj, bj', block);
          }
        }
        NextMultiple(bj, block);
        bj := bj + block;
      }
      forall bi', bj' | 0 <= bi' < bi + block && 0 <= bj' < size && bi' % block == 0 && bj' % block == 0
        ensures BlockUnique(state, size, block, bi', bj')
      {
        if bi' >= bi {
          NoMultipleBetween(bi, bi', block);
        }
      }
      NextMultiple(bi, block);
      bi := bi + block;
    }
    return true;
  }

  // ---------------------------------------------------------------------------
  // is_valid

  /**
   * num may go in (row, col): it is not in the row, not in the column, and not
   * in the block whose top-left cell is (row - row % block, col - col % block).
   */
  predicate IsValid(state: Grid, size: nat, block: nat, row: nat, col: nat, num: int)
    requires WellFormed(state, size) && BlockShape(size, block) && row < size && col < size
  {
    var sr, sc := row - row % block, col - col % block;
    BlockStartIs(row, block);
    BlockStartIs(col, block);
    BlockFits(size, block, sr);
    BlockFits(size, block, sc);
    (forall j :: 0 <= j < size ==> state[row][j] != num) &&
    (forall i :: 0 <= i < size ==> state[i][col] != num) &&
    (forall i, j :: sr <= i < sr + block && sc <= j < sc + block ==> state[i][j] != num)
  }

  /** is_valid: the row and column membership tests, then the loops over the block. */
  method IsValidCheck(state: Grid, size: nat, block: nat, row: nat, col: nat, num: int) returns (valid: bool)
    requires WellFormed(state, size) && BlockShape(size, block) && row < size && col < size
    ensures valid == IsValid(state, size, block, row, col, num)
  {
    var sr, sc := row - row % block, col - col % block;
    BlockStartIs(row, block);
    BlockStartIs(col, block);
    BlockFits(size, block, sr);
    BlockFits(size, block, sc);
    if num in state[row] {
      return false;
    }
    if num in Column(state, size, col) {
      return false;
    }
    var i := sr;
    while i < sr + block
      invariant sr <= i <= sr + block
      invariant forall i', j :: sr <= i' < i && sc <= j < sc + block ==> state[i'][j] != num
    {
      var j := sc;
      while j < sc + block
        invariant sc <= j <= sc + block
        invariant forall j' :: sc <= j' < j ==> state[i][j'] != num
      {
        if state[i][j] == num {
          return false;
        }
        j := j + 1;
      }
      i := i + 1;
    }
    return true;
  }

  /** The values of the block that contains (row, col), as the source lists them. */
  function BlockOf(state: Grid, size: nat, block: nat, row: nat, col: nat): (vals: seq<int>)
    requires WellFormed(state, size) && BlockShape(size, block) && row < size && col < size
  {
    BlockStartIs(row, block);
    BlockStartIs(col, block);
    BlockFits(size, block, row - row % block);
    BlockFits(size, block, col - col % block);
    BlockValues(state, size, row - row % block, col - col % block, block)
  }

  /** is_valid in terms of the lists the source builds: num is in none of the row, the column and the block. */
  lemma IsValidIff(state: Grid, size: nat, block: nat, row: nat, col: nat, num: int)
    requires WellFormed(state, size) && BlockShape(size, block) && row < size && col < size
    ensures IsValid(state, size, block, row, col, num) <==>
              num !in state[row] && num !in Column(state, size, col) &&
              num !in BlockOf(state, size, block, row, col)
  {
    var sr, sc := row - row % block, col - col % block;
    BlockStartIs(row, block);
    BlockStartIs(col, block);
    BlockFits(size, block, sr);
    BlockFits(size, block, sc);
    InBlockValues(state, size, sr, sc, block, num);
  }

  // ---------------------------------------------------------------------------
  // get_actions

  /** Cell (i, j) comes strictly before cell (i', j') in row-major order. */
  predicate Before(i: int, j: int, i': int, j': int) {
    i < i' || (i == i' && j < j')
  }

  /** The first empty cell at or after (i, j) in row-major order, if any. */
  function FirstEmptyFrom(state: Grid, size: nat, i: nat, j: nat): (cell: Option<Cell>)
    requires WellFormed(state, size) && i <= size && j <= size
    ensures cell.Some? ==> var (ci, cj) := cell.value;
              0 <= ci < size && 0 <= cj < size && state[ci][cj] == 0 && !Before(ci, cj, i, j) &&
              forall r, c :: 0 <= r < size && 0 <= c < size && !Before(r, c, i, j) && Before(r, c, ci, cj) ==>
                state[r][c] != 0
    ensures cell.None? ==>
              forall r, c :: 0 <= r < size && 0 <= c < size && !Before(r, c, i, j) ==> state[r][c] != 0
    decreases size - i, size - j
  {
    if i == size then None
    else if j == size then FirstEmptyFrom(state, size, i + 1, 0)
    else if state[i][j] == 0 then Some((i, j))
    else FirstEmptyFrom(state, size, i, j + 1)
  }

  /** The first cell equal to 0 in row-major order. */
  function FirstEmpty(state: Grid, size: nat): (cell: Option<Cell>)
    requires WellFormed(state, size)
  {
    FirstEmptyFrom(state, size, 0, 0)
  }

  /** The actions (i, j, num) for num = 1 .. n that pass is_valid, in the order the source appends them. */
  function Candidates(state: Grid, size: nat, block: nat, i: nat, j: nat, n: nat): (acts: seq<Action>)
    requires WellFormed(state, size) && BlockShape(size, block) && i < size && j < size
    ensures forall a :: a in acts <==> a.row == i && a.col == j && 1 <= a.num <= n &&
                                       IsValid(state, size, block, i, j, a.num)
    ensures forall x, y :: 0 <= x < y < |acts| ==> acts[x].num < acts[y].num
    decreases n
  {
    if n == 0 then []
    else
      Candidates(state, size, block, i, j, n - 1) +
      (if IsValid(state, size, block, i, j, n) then [Action(i, j, n)] else [])
  }

  /** get_actions as a function: the moves for the first empty cell, none when the grid is full. */
  function Actions(state: Grid, size: nat, block: nat): (acts: seq<Action>)
    requires WellFormed(state, size) && BlockShape(size, block)
    ensures FirstEmpty(state, size).None? <==> NoEmpty(state)
    ensures FirstEmpty(state, size).None? ==> acts == []
    ensures forall a :: a in acts ==>
              FirstEmpty(state, size) == Some((a.row as int, a.col as int)) &&
              a.row < size && a.col < size && state[a.row][a.col] == 0 &&
              1 <= a.num <= size && IsValid(state, size, block, a.row, a.col, a.num)
    ensures FirstEmpty(state, size).Some? ==>
              var (i, j) := FirstEmpty(state, size).value;
              forall n :: 1 <= n <= size && IsValid(state, size, block, i, j, n) ==> Action(i, j, n) in acts
    ensures forall x, y :: 0 <= x < y < |acts| ==> acts[x].num < acts[y].num
  {
    match FirstEmpty(state, size)
    case None => []
    case Some((i, j)) => Candidates(state, size, block, i, j, size)
  }

  /** get_actions: scan for the first 0, collect the valid numbers for it, and return at once. */
  method GetActions(state: Grid, size: nat, block: nat) returns (actions: seq<Action>)
    requires WellFormed(state, size) && BlockShape(size, block)
    ensures actions == Actions(state, size, block)
  {
    actions := [];
    var i := 0;
    while i < size
      invariant 0 <= i <= size && actions == []
      invariant forall r, c :: 0 <= r < i && 0 <= c < size ==> state[r][c] != 0
    {
      var j := 0;
      while j < size
        invariant 0 <= j <= size && actions == []
        invariant forall r, c :: 0 <= r < size && 0 <= c < size && Before(r, c, i, j) ==> state[r][c] != 0
      {
        if state[i][j] == 0 {
          var num := 1;
          while num <= size
            invariant 1 <= num <= size + 1
            invariant actions == Candidates(state, size, block, i, j, num - 1)
          {
            var ok := IsValidCheck(state, size, block, i, j, num);
            if ok {
              actions := actions + [Action(i, j, num)];
            }
            num := num + 1;
          }
          var first := FirstEmpty(state, size);
          assert !Before(i, j, 0, 0);
          assert first.Some?;
          assert !Before(i, j, first.value.0, first.value.1);
          assert !Before(first.value.0, first.value.1, i, j);
          return actions;
        }
        j := j + 1;
      }
      i := i + 1;
    }
    assert FirstEmpty(state, size) == None;
  }

  // ---------------------------------------------------------------------------
  // apply_action and state_to_hashable

  /** apply_action: a copy of the grid with one cell set. */
  function ApplyAction(state: Grid, a: Action): (next: Grid)
    requires a.row < |state| && a.col < |state[a.row]|
    ensures |next| == |state| && forall r :: 0 <= r < |state| ==> |next[r]| == |state[r]|
    ensures forall r, c :: 0 <= r < |state| && 0 <= c < |state[r]| ==>
              next[r][c] == if r == a.row && c == a.col then a.num else state[r][c]
  {
    state[a.row := state[a.row][a.col := a.num]]
  }

  /** state_to_hashable: the tuple of row tuples; a grid value already serves as its own key. */
  function StateToHashable(state: Grid): (key: Grid)
    ensures |key| == |state| && forall r :: 0 <= r < |state| ==> key[r] == state[r]
  {
    state
  }

  /** The key is canonical: grids with the same key are the same grid. */
  lemma HashableInjective(s: Grid, t: Grid)
    ensures StateToHashable(s) == StateToHashable(t) <==> s == t
  {
  }

  /** Placing a valid number in an empty cell keeps one block unique. */
  lemma PlaceKeepsBlock(state: Grid, size: nat, block: nat, a: Action, bi: nat, bj: nat)
    requires WellFormed(state, size) && BlockShape(size, block)
    requires a.row < size && a.col < size && state[a.row][a.col] == 0
    requires IsValid(state, size, block, a.row, a.col, a.num)
    requires bi < size && bj < size && bi % block == 0 && bj % block == 0
    requires BlockUnique(state, size, block, bi, bj)
    ensures WellFormed(ApplyAction(state, a), size)
    ensures BlockUnique(ApplyAction(state, a), size, block, bi, bj)
  {
    var next := ApplyAction(state, a);
    BlockFits(size, block, bi);
    BlockFits(size, block, bj);
    if bi <= a.row < bi + block && bj <= a.col < bj + block {
      PlaceInBlock(state, size, block, a, bi, bj);
    } else {
      PlaceOutsideBlock(state, size, block, a, bi, bj);
    }
  }

  /** A block that holds the placed cell gains exactly the placed number. */
  lemma PlaceInBlock(state: Grid, size: nat, block: nat, a: Action, bi: nat, bj: nat)
    requires WellFormed(state, size) && BlockShape(size, block)
    requires a.row < size && a.col < size && state[a.row][a.col] == 0
    requires IsValid(state, size, block, a.row, a.col, a.num)
    requires bi % block == 0 && bj % block == 0 && bi + block <= size && bj + block <= size
    requires bi <= a.row < bi + block && bj <= a.col < bj + block
    requires IsUnique(BlockValues(state, size, bi, bj, block))
    ensures WellFormed(ApplyAction(state, a), size)
    ensures IsUnique(BlockValues(ApplyAction(state, a), size, bi, bj, block))
  {
    var next := ApplyAction(state, a);
    var r, c, v := a.row as int, a.col as int, a.num;
    var old_ := BlockValues(state, size, bi, bj, block);
    var new_ := BlockValues(next, size, bi, bj, block);
    BlockCellAt(bi, bj, block, r, c);
    var k := (r - bi) * block + (c - bj);
    forall k' | 0 <= k' < block * block && k' != k
      ensures new_[k'] == old_[k']
    {
      BlockCellsDistinct(bi, bj, block, k, k');
    }
    assert new_[k] == v;
    assert new_ == old_[k := v];
    ValidNotInBlock(state, size, block, a, bi, bj);
    UniqueAfterPlace(old_, k, v);
  }

  /** A number that is_valid accepts for a cell is absent from the cell's block. */
  lemma ValidNotInBlock(state: Grid, size: nat, block: nat, a: Action, bi: nat, bj: nat)
    requires WellFormed(state, size) && BlockShape(size, block) && a.row < size && a.col < size
    requires IsValid(state, size, block, a.row, a.col, a.num)
    requires bi % block == 0 && bj % block == 0 && bi + block <= size && bj + block <= size
    requires bi <= a.row < bi + block && bj <= a.col < bj + block
    ensures a.num !in BlockValues(state, size, bi, bj, block)
  {
    BlockStartOf(a.row, bi, block);
    BlockStartOf(a.col, bj, block);
    InBlockValues(state, size, bi, bj, block, a.num);
  }

  /** A block that does not hold the placed cell keeps its values. */
  lemma PlaceOutsideBlock(state: Grid, size: nat, block: nat, a: Action, bi: nat, bj: nat)
    requires WellFormed(state, size) && block > 0 && a.row < size && a.col < size
    requires bi + block <= size && bj + block <= size
    requires !(bi <= a.row < bi + block && bj <= a.col < bj + block)
    ensures WellFormed(ApplyAction(state, a), size)
    ensures BlockValues(ApplyAction(state, a), size, bi, bj, block) == BlockValues(state, size, bi, bj, block)
  {
  }

  /** Placing a valid number in an empty cell keeps its row and every column unique. */
  lemma PlaceKeepsLines(state: Grid, size: nat, block: nat, a: Action)
    requires WellFormed(state, size) && BlockShape(size, block)
    requires a.row < size && a.col < size && state[a.row][a.col] == 0
    requires IsValid(state, size, block, a.row, a.col, a.num)
    requires forall i :: 0 <= i < size ==> IsUnique(state[i])
    requires forall j :: 0 <= j < size ==> IsUnique(Column(state, size, j))
    ensures WellFormed(ApplyAction(state, a), size)
    ensures forall i :: 0 <= i < size ==> IsUnique(ApplyAction(state, a)[i])
    ensures forall j :: 0 <= j < size ==> IsUnique(Column(ApplyAction(state, a), size, j))
  {
    var next := ApplyAction(state, a);
    var r, c, v := a.row, a.col, a.num;
    forall i | 0 <= i < size
      ensures IsUnique(next[i])
    {
      if i == r {
        assert next[r] == state[r][c := v];
        assert v !in state[r];
        UniqueAfterPlace(state[r], c, v);
      } else {
        assert next[i] == state[i];
      }
    }
    forall j | 0 <= j < size
      ensures IsUnique(Column(next, size, j))
    {
      if j == c {
        assert Column(next, size, c) == Column(state, size, c)[r := v];
        UniqueAfterPlace(Column(state, size, c), r, v);
      } else {
        assert Column(next, size, j) == Column(state, size, j);
      }
    }
  }

  /**
   * Applying an action that get_actions returns to a grid whose rows, columns
   * and blocks all pass is_unique gives a grid where they still all pass.
   */
  lemma ActionKeepsUnique(state: Grid, size: nat, block: nat, a: Action)
    requires WellFormed(state, size) && BlockShape(size, block) && AllUnique(state, size, block)
    requires a in Actions(state, size, block)
    ensures WellFormed(ApplyAction(state, a), size)
    ensures AllUnique(ApplyAction(state, a), size, block)
  {
    PlaceKeepsLines(state, size, block, a);
    forall bi, bj | 0 <= bi < size && 0 <= bj < size && bi % block == 0 && bj % block == 0
      ensures BlockUnique(ApplyAction(state, a), size, block, bi, bj)
    {
      PlaceKeepsBlock(state, size, block, a, bi, bj);
    }
  }

  // ---------------------------------------------------------------------------
  // sudoku_parser and the line filter of get_sudokus_from_web

  predicate IsDigit(ch: char) {
    '0' <= ch <= '9'
  }

  /** The filter of get_sudokus_from_web: 81 characters, each a digit or '.'. */
  predicate AcceptLine(line: string) {
    |line| == 81 && forall k :: 0 <= k < |line| ==> IsDigit(line[k]) || line[k] == '.'
  }

  /** '.' is an empty cell; a digit is its value. */
  function CellOf(ch: char): (v: int)
    requires IsDigit(ch) || ch == '.'
    ensures 0 <= v <= 9 && (v == 0 <==> ch == '.' || ch == '0')
    ensures ch != '.' ==> v == (ch as int) - ('0' as int)
  {
    if ch == '.' then 0 else (ch as int) - ('0' as int)
  }

  /** The grid a puzzle line describes: cell (i, j) comes from character i * 9 + j. */
  function ParseGrid(line: string): (grid: Grid)
    requires |line| >= 81 && forall k :: 0 <= k < 81 ==> IsDigit(line[k]) || line[k] == '.'
    ensures WellFormed(grid, 9)
    ensures forall i, j :: 0 <= i < 9 && 0 <= j < 9 ==>
              0 <= grid[i][j] <= 9 && (grid[i][j] == 0 <==> line[i * 9 + j] == '.' || line[i * 9 + j] == '0')
    ensures forall i, j :: 0 <= i < 9 && 0 <= j < 9 ==> grid[i][j] == CellOf(line[i * 9 + j])
  {
    var grid := seq(9, i requires 0 <= i < 9 => seq(9, j requires 0 <= j < 9 => CellOf(line[i * 9 + j])));
    assert forall i, j :: 0 <= i < 9 && 0 <= j < 9 ==> grid[i][j] == CellOf(line[i * 9 + j]);
    grid
  }

  /** sudoku_parser: builds the grid row by row, appending one cell at a time. */
  method ParseLine(line: string) returns (grid: Grid)
    requires |line| >= 81 && forall k :: 0 <= k < 81 ==> IsDigit(line[k]) || line[k] == '.'
    ensures grid == ParseGrid(line)
  {
    grid := [];
    var i := 0;
    while i < 9
      invariant 0 <= i <= 9 && |grid| == i
      invariant forall r :: 0 <= r < i ==> grid[r] == ParseGrid(line)[r]
    {
      var row: seq<int> := [];
      var j := 0;
      while j < 9
        invariant 0 <= j <= 9 && |row| == j
        invariant forall c :: 0 <= c < j ==> row[c] == CellOf(line[i * 9 + c])
      {
        var ch := line[i * 9 + j];
        if ch == '.' {
          row := row + [0];
        } else {
          row := row + [(ch as int) - ('0' as int)];
        }
        j := j + 1;
      }
      grid := grid + [row];
      i := i + 1;
    }
  }

  /** The character a cell value 0 .. 9 is written as in a puzzle line. */
  function CharOf(v: int): (ch: char)
    requires 0 <= v <= 9
    ensures IsDigit(ch) || ch == '.'
  {
    if v == 0 then '.' else (('0' as int) + v) as char
  }

  /** The puzzle line of a 9 by 9 grid of values 0 .. 9. */
  function Render(grid: Grid): (line: string)
    requires WellFormed(grid, 9) && forall i, j :: 0 <= i < 9 && 0 <= j < 9 ==> 0 <= grid[i][j] <= 9
  {
    seq(81, k requires 0 <= k < 81 => CharOf(grid[k / 9][k % 9]))
  }

  /** Parsing the line of a grid gives the grid back. */
  lemma ParseRender(grid: Grid)
    requires WellFormed(grid, 9) && forall i, j :: 0 <= i < 9 && 0 <= j < 9 ==> 0 <= grid[i][j] <= 9
    ensures AcceptLine(Render(grid)) && ParseGrid(Render(grid)) == grid
  {
    var line := Render(grid);
    assert AcceptLine(line);
    var back := ParseGrid(line);
    forall i | 0 <= i < 9
      ensures back[i] == grid[i]
    {
      forall j | 0 <= j < 9
        ensures back[i][j] == grid[i][j]
      {
        DivModOf(i, j, 9);
        assert line[i * 9 + j] == CharOf(grid[i][j]);
      }
    }
  }

  /** Rendering the grid of an accepted line without '0' gives the line back; '0' comes back as '.'. */
  lemma RenderParse(line: string)
    requires AcceptLine(line)
    ensures Render(ParseGrid(line)) ==
            seq(81, k requires 0 <= k < 81 => if line[k] == '0' then '.' else line[k])
  {
    var grid := ParseGrid(line);
    forall k | 0 <= k < 81
      ensures Render(grid)[k] == if line[k] == '0' then '.' else line[k]
    {
      DivModOf(k / 9, k % 9, 9);
    }
  }
}
