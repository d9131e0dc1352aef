/**
 * What the CNF encoding of solve_sudoku_sat means.
 *
 * A model is the set of literals the solver makes true: var(i, j, n) when
 * cell (i, j) holds n, -var(i, j, n) when it does not. Two results connect the
 * clauses to the Sudoku rules of sudoku.py:
 *   - soundness: decoding any consistent model of the six clause lists gives a
 *     solved grid (is_goal holds) that keeps every given of the puzzle;
 *   - completeness: every solved grid that keeps the givens yields such a
 *     model, and decoding that model gives the grid back.
 * So the clauses are satisfiable exactly when the puzzle has a solution.
 */
module SatSoundness {
  import opened Common
  import opened Sudoku
  import opened SudokuSearch
  import opened SatEncoding

  /** A clause holds in a model when one of its literals is true. */
  predicate Holds(model: set<int>, c: Clause) {
    exists l :: l in c && l in model
  }

  /** Every clause of the list holds. */
  ghost predicate Satisfies(model: set<int>, clauses: seq<Clause>) {
    forall c :: c in clauses ==> Holds(model, c)
  }

  /** No variable is true and false at once. */
  ghost predicate Consistent(model: set<int>) {
    forall l :: l in model ==> -l !in model
  }

  /** A consistent model in which [-x, -y] holds does not make both x and y true. */
  lemma NotBothHolds(model: set<int>, x: int, y: int)
    requires Consistent(model) && Holds(model, NotBoth(x, y))
    ensures !(x in model && y in model)
  {
    var l :| l in NotBoth(x, y) && l in model;
    assert l == -x || l == -y;
  }

  /** A model of all the clauses is a model of each rule's list. */
  lemma SatisfiesEachRule(model: set<int>, cs: Clauses)
    requires Satisfies(model, cs.All())
    ensures Satisfies(model, cs.rule1) && Satisfies(model, cs.rule2) && Satisfies(model, cs.rule3)
    ensures Satisfies(model, cs.rule4) && Satisfies(model, cs.rule5) && Satisfies(model, cs.rule6)
  {
    forall c | c in cs.rule1 || c in cs.rule2 || c in cs.rule3 || c in cs.rule4 || c in cs.rule5 || c in cs.rule6
      ensures Holds(model, c)
    {
      AllMember(cs, c);
    }
  }

  // ---------------------------------------------------------------------------
  // Soundness

  /** A consistent model of rules 1 and 2 makes exactly one variable of each cell true. */
  ghost predicate CellModel(model: set<int>, size: nat) {
    Consistent(model) && Satisfies(model, Rule1(size)) && Satisfies(model, Rule2(size))
  }

  /** Rule 1 and rule 2: the decoded number of a cell is in 1..size and is its only true variable. */
  lemma CellDecoded(model: set<int>, size: nat, i: int, j: int)
    requires CellModel(model, size) && 0 <= i < size && 0 <= j < size
    ensures var v := Decode(model, size)[i][j];
            1 <= v <= size && Var(size, i, j, v) in model &&
            forall n :: 1 <= n <= size && n != v ==> Var(size, i, j, n) !in model
  {
    var v := Decode(model, size)[i][j];
    assert v == LastTrue(model, size, i, j, size);
    var vars := CellVars(size, i, j);
    Rule1Member(size, vars);
    assert Holds(model, vars);
    var l :| l in vars && l in model;
    var k :| 0 <= k < size && vars[k] == l;
    assert Var(size, i, j, k + 1) in model;
    forall n | 1 <= n <= size && n != v
      ensures Var(size, i, j, n) !in model
    {
      if n < v {
        var c := NotBoth(Var(size, i, j, n), Var(size, i, j, v));
        Rule2Member(size, c);
        NotBothHolds(model, Var(size, i, j, n), Var(size, i, j, v));
      }
    }
  }

  /** Two cells whose "not both" clause for the first cell's number holds decode to different numbers. */
  lemma ClauseSeparates(model: set<int>, size: nat, r1: int, c1: int, r2: int, c2: int)
    requires CellModel(model, size)
    requires 0 <= r1 < size && 0 <= c1 < size && 0 <= r2 < size && 0 <= c2 < size
    requires var n := Decode(model, size)[r1][c1];
             Holds(model, NotBoth(Var(size, r1, c1, n), Var(size, r2, c2, n)))
    ensures Decode(model, size)[r1][c1] != Decode(model, size)[r2][c2]
  {
    var n := Decode(model, size)[r1][c1];
    CellDecoded(model, size, r1, c1);
    CellDecoded(model, size, r2, c2);
    NotBothHolds(model, Var(size, r1, c1, n), Var(size, r2, c2, n));
  }

  /** Rule 3: every decoded row passes is_unique. */
  lemma DecodedRowUnique(model: set<int>, size: nat, i: int)
    requires CellModel(model, size) && Satisfies(model, Rule3(size)) && 0 <= i < size
    ensures IsUnique(Decode(model, size)[i])
  {
    var row := Decode(model, size)[i];
    forall a, b | 0 <= a < b < |row| && row[a] != 0
      ensures row[a] != row[b]
    {
      var n := row[a];
      CellDecoded(model, size, i, a);
      Rule3Member(size, NotBoth(Var(size, i, a, n), Var(size, i, b, n)));
      ClauseSeparates(model, size, i, a, i, b);
    }
    IsUniqueIff(row);
  }

  /** Rule 4: every decoded column passes is_unique. */
  lemma DecodedColumnUnique(model: set<int>, size: nat, j: int)
    requires CellModel(model, size) && Satisfies(model, Rule4(size)) && 0 <= j < size
    ensures IsUnique(Column(Decode(model, size), size, j))
  {
    var g := Decode(model, size);
    var col := Column(g, size, j);
    forall a, b | 0 <= a < b < |col| && col[a] != 0
      ensures col[a] != col[b]
    {
      var n := g[a][j];
      CellDecoded(model, size, a, j);
      Rule4Member(size, NotBoth(Var(size, a, j, n), Var(size, b, j, n)));
      ClauseSeparates(model, size, a, j, b, j);
    }
    IsUniqueIff(col);
  }

  /** Rule 6: every decoded block passes is_unique. */
  lemma DecodedBlockUnique(model: set<int>, size: nat, block: nat, bi: int, bj: int)
    requires CellModel(model, size) && BlockShape(size, block) && Satisfies(model, Rule6(size, block))
    requires 0 <= bi < size && 0 <= bj < size && bi % block == 0 && bj % block == 0
    ensures BlockUnique(Decode(model, size), size, block, bi, bj)
  {
    var g := Decode(model, size);
    BlockFits(size, block, bi);
    BlockFits(size, block, bj);
    var vals := BlockValues(g, size, bi, bj, block);
    var cells := BlockCells(bi, bj, block);
    forall a, b | 0 <= a < b < |vals| && vals[a] != 0
      ensures vals[a] != vals[b]
    {
      var n := g[cells[a].0][cells[a].1];
      CellDecoded(model, size, cells[a].0, cells[a].1);
      var c := BlockPair(size, block, bi, bj, n, a, b);
      assert Corner(size, block, bi) && Corner(size, block, bj);
      Rule6Member(size, block, c);
      ClauseSeparates(model, size, cells[a].0, cells[a].1, cells[b].0, cells[b].1);
    }
    IsUniqueIff(vals);
  }

  /** Rule 5: a given in 1..size is the decoded number of its cell. */
  lemma DecodedGiven(model: set<int>, grid: Grid, size: nat, i: int, j: int)
    requires CellModel(model, size) && WellFormed(grid, size) && Satisfies(model, Rule5(grid, size))
    requires 0 <= i < size && 0 <= j < size && 1 <= grid[i][j] <= size
    ensures Decode(model, size)[i][j] == grid[i][j]
  {
    var c := [Var(size, i, j, grid[i][j])];
    Rule5Member(grid, size, c);
    assert Holds(model, c);
    CellDecoded(model, size, i, j);
  }

  /** On a grid whose side is a perfect square, int(size ** 0.5) divides the side, as the theorems below ask. */
  lemma SquareBlockShape(size: nat)
    requires size >= 1 && BlockSide(size) * BlockSide(size) == size
    ensures BlockShape(size, BlockSide(size))
  {
    var b := BlockSide(size);
    DivModOf(b, 0, b);
  }

  /**
   * Soundness: whatever consistent model the solver returns for the clauses of
   * a puzzle, the decoded grid is solved (no empty cell, rows, columns and
   * blocks unique) and keeps every given.
   */
  lemma DecodeSolves(grid: Grid, model: set<int>)
    requires |grid| >= 1 && WellFormed(grid, |grid|) && BlockShape(|grid|, BlockSide(|grid|))
    requires forall i, j :: 0 <= i < |grid| && 0 <= j < |grid| ==> 0 <= grid[i][j] <= |grid|
    requires Consistent(model) && Satisfies(model, Encode(grid).All())
    ensures IsGoal(Decode(model, |grid|), |grid|, BlockSide(|grid|))
    ensures KeepsGivens(grid, |grid|, Decode(model, |grid|))
  {
    SatisfiesEachRule(model, Encode(grid));
    DecodedFilled(grid, model);
    DecodedUnique(model, |grid|, BlockSide(|grid|));
  }

  /** Rules 1, 2 and 5: no decoded cell is empty, and every given is kept. */
  lemma DecodedFilled(grid: Grid, model: set<int>)
    requires WellFormed(grid, |grid|) && CellModel(model, |grid|) && Satisfies(model, Rule5(grid, |grid|))
    requires forall i, j :: 0 <= i < |grid| && 0 <= j < |grid| ==> 0 <= grid[i][j] <= |grid|
    ensures NoEmpty(Decode(model, |grid|)) && KeepsGivens(grid, |grid|, Decode(model, |grid|))
  {
    var size := |grid|;
    var g := Decode(model, size);
    forall i, j | 0 <= i < size && 0 <= j < size
      ensures g[i][j] != 0 && (grid[i][j] != 0 ==> g[i][j] == grid[i][j])
    {
      CellDecoded(model, size, i, j);
      if grid[i][j] != 0 {
        DecodedGiven(model, grid, size, i, j);
      }
    }
  }

  /** Rules 3, 4 and 6: every decoded row, column and block passes is_unique. */
  lemma DecodedUnique(model: set<int>, size: nat, block: nat)
    requires CellModel(model, size) && BlockShape(size, block)
    requires Satisfies(model, Rule3(size)) && Satisfies(model, Rule4(size)) && Satisfies(model, Rule6(size, block))
    ensures AllUnique(Decode(model, size), size, block)
  {
    var g := Decode(model, size);
    forall i | 0 <= i < size
      ensures IsUnique(g[i]) && IsUnique(Column(g, size, i))
    {
      DecodedRowUnique(model, size, i);
      DecodedColumnUnique(model, size, i);
    }
    forall bi, bj | 0 <= bi < size && 0 <= bj < size && bi % block == 0 && bj % block == 0
      ensures BlockUnique(g, size, block, bi, bj)
    {
      DecodedBlockUnique(model, size, block, bi, bj);
    }
  }

  // ---------------------------------------------------------------------------
  // Completeness

  /** The literal of var(i, j, n) in the model of grid g: true exactly when the cell holds n. */
  function Literal(g: Grid, size: nat, i: int, j: int, n: int): int
    requires WellFormed(g, size) && 0 <= i < size && 0 <= j < size
  {
    if g[i][j] == n then Var(size, i, j, n) else -Var(size, i, j, n)
  }

  /** The model a filled grid gives: one literal per variable. */
  function ModelOf(g: Grid, size: nat): set<int>
    requires WellFormed(g, size)
  {
    set i, j, n | 0 <= i < size && 0 <= j < size && 1 <= n <= size :: Literal(g, size, i, j, n)
  }

  /** A literal of the model equal to +-var(i, j, n) is that variable's own literal. */
  lemma LiteralOf(g: Grid, size: nat, i: int, j: int, n: int, i': int, j': int, n': int)
    requires WellFormed(g, size) && 0 <= i < size && 0 <= j < size && 1 <= n <= size
    requires 0 <= i' < size && 0 <= j' < size && 1 <= n' <= size
    ensures Literal(g, size, i', j', n') == Var(size, i, j, n) ==> g[i][j] == n
    ensures Literal(g, size, i', j', n') == -Var(size, i, j, n) ==> g[i][j] != n
  {
    VarRange(size, i, j, n);
    VarRange(size, i', j', n');
    VarInjective(size, i, j, n, i', j', n');
  }

  /** var(i, j, n) is true in the model of g exactly when g[i][j] == n, and false otherwise. */
  lemma ModelOfVar(g: Grid, size: nat, i: int, j: int, n: int)
    requires WellFormed(g, size) && 0 <= i < size && 0 <= j < size && 1 <= n <= size
    ensures Var(size, i, j, n) in ModelOf(g, size) <==> g[i][j] == n
    ensures -Var(size, i, j, n) in ModelOf(g, size) <==> g[i][j] != n
  {
    var m := ModelOf(g, size);
    assert Literal(g, size, i, j, n) in m;
    if Var(size, i, j, n) in m {
      var i', j', n' :| 0 <= i' < size && 0 <= j' < size && 1 <= n' <= size &&
                        Literal(g, size, i', j', n') == Var(size, i, j, n);
      LiteralOf(g, size, i, j, n, i', j', n');
    }
    if -Var(size, i, j, n) in m {
      var i', j', n' :| 0 <= i' < size && 0 <= j' < size && 1 <= n' <= size &&
                        Literal(g, size, i', j', n') == -Var(size, i, j, n);
      LiteralOf(g, size, i, j, n, i', j', n');
    }
  }

  /** The model of a grid never makes a variable true and false at once. */
  lemma ModelOfConsistent(g: Grid, size: nat)
    requires WellFormed(g, size)
    ensures Consistent(ModelOf(g, size))
  {
    var m := ModelOf(g, size);
    forall l | l in m
      ensures -l !in m
    {
      var i, j, n :| 0 <= i < size && 0 <= j < size && 1 <= n <= size && l == Literal(g, size, i, j, n);
      ModelOfVar(g, size, i, j, n);
    }
  }

  /** A grid whose cells all hold a number in 1..size. */
  ghost predicate Filled(g: Grid, size: nat)
    requires WellFormed(g, size)
  {
    forall i, j :: 0 <= i < size && 0 <= j < size ==> 1 <= g[i][j] <= size
  }

  /** Rule 1 and rule 2 hold in the model of a filled grid. */
  lemma ModelOfCells(g: Grid, size: nat)
    requires WellFormed(g, size) && Filled(g, size)
    ensures Satisfies(ModelOf(g, size), Rule1(size)) && Satisfies(ModelOf(g, size), Rule2(size))
  {
    var m := ModelOf(g, size);
    forall c | c in Rule1(size)
      ensures Holds(m, c)
    {
      Rule1Member(size, c);
      var i, j :| 0 <= i < size && 0 <= j < size && c == CellVars(size, i, j);
      ModelOfVar(g, size, i, j, g[i][j]);
      assert c[g[i][j] - 1] == Var(size, i, j, g[i][j]);
    }
    forall c | c in Rule2(size)
      ensures Holds(m, c)
    {
      Rule2Member(size, c);
      var i, j, a, b :| 0 <= i < size && 0 <= j < size && 1 <= a < b <= size &&
                        c == NotBoth(Var(size, i, j, a), Var(size, i, j, b));
      ModelOfVar(g, size, i, j, a);
      ModelOfVar(g, size, i, j, b);
      assert c[0] == -Var(size, i, j, a) && c[1] == -Var(size, i, j, b);
    }
  }

  /** A "not both" clause over two cells that hold different numbers holds in the model. */
  lemma ModelOfSeparates(g: Grid, size: nat, r1: int, c1: int, r2: int, c2: int, n: int)
    requires WellFormed(g, size) && 1 <= n <= size
    requires 0 <= r1 < size && 0 <= c1 < size && 0 <= r2 < size && 0 <= c2 < size
    requires g[r1][c1] != g[r2][c2]
    ensures Holds(ModelOf(g, size), NotBoth(Var(size, r1, c1, n), Var(size, r2, c2, n)))
  {
    ModelOfVar(g, size, r1, c1, n);
    ModelOfVar(g, size, r2, c2, n);
    var c := NotBoth(Var(size, r1, c1, n), Var(size, r2, c2, n));
    assert c[0] == -Var(size, r1, c1, n) && c[1] == -Var(size, r2, c2, n);
  }

  /** Rules 3 and 4 hold in the model of a grid whose rows and columns are unique. */
  lemma ModelOfLines(g: Grid, size: nat)
    requires WellFormed(g, size) && Filled(g, size)
    requires forall i :: 0 <= i < size ==> IsUnique(g[i])
    requires forall j :: 0 <= j < size ==> IsUnique(Column(g, size, j))
    ensures Satisfies(ModelOf(g, size), Rule3(size)) && Satisfies(ModelOf(g, size), Rule4(size))
  {
    forall c | c in Rule3(size)
      ensures Holds(ModelOf(g, size), c)
    {
      Rule3Member(size, c);
      var i, n, j1, j2 :| 0 <= i < size && 1 <= n <= size && 0 <= j1 < j2 < size &&
                          c == NotBoth(Var(size, i, j1, n), Var(size, i, j2, n));
      IsUniqueIff(g[i]);
      ModelOfSeparates(g, size, i, j1, i, j2, n);
    }
    forall c | c in Rule4(size)
      ensures Holds(ModelOf(g, size), c)
    {
      Rule4Member(size, c);
      var j, n, i1, i2 :| 0 <= j < size && 1 <= n <= size && 0 <= i1 < i2 < size &&
                          c == NotBoth(Var(size, i1, j, n), Var(size, i2, j, n));
      var col := Column(g, size, j);
      IsUniqueIff(col);
      assert col[i1] != col[i2];
      ModelOfSeparates(g, size, i1, j, i2, j, n);
    }
  }

  /** Rule 6 holds in the model of a grid whose blocks are unique. */
  lemma ModelOfBlocks(g: Grid, size: nat, block: nat)
    requires WellFormed(g, size) && Filled(g, size) && BlockShape(size, block)
    requires forall bi, bj :: 0 <= bi < size && 0 <= bj < size && bi % block == 0 && bj % block == 0 ==>
               BlockUnique(g, size, block, bi, bj)
    ensures Satisfies(ModelOf(g, size), Rule6(size, block))
  {
    forall c | c in Rule6(size, block)
      ensures Holds(ModelOf(g, size), c)
    {
      Rule6Member(size, block, c);
      var bi, bj, n, a, b :| Corner(size, block, bi) && Corner(size, block, bj) && 1 <= n <= size &&
                             0 <= a < b < block * block && c == BlockPair(size, block, bi, bj, n, a, b);
      assert BlockUnique(g, size, block, bi, bj);
      BlockFits(size, block, bi);
      BlockFits(size, block, bj);
      var vals := BlockValues(g, size, bi, bj, block);
      var cells := BlockCells(bi, bj, block);
      IsUniqueIff(vals);
      assert vals[a] != vals[b];
      ModelOfSeparates(g, size, cells[a].0, cells[a].1, cells[b].0, cells[b].1, n);
    }
  }

  /** Rule 5 holds in the model of a grid that keeps the puzzle's givens. */
  lemma ModelOfGivens(grid: Grid, g: Grid, size: nat)
    requires WellFormed(grid, size) && WellFormed(g, size) && Filled(g, size) && KeepsGivens(grid, size, g)
    ensures Satisfies(ModelOf(g, size), Rule5(grid, size))
  {
    forall c | c in Rule5(grid, size)
      ensures Holds(ModelOf(g, size), c)
    {
      Rule5Member(grid, size, c);
      var i, j :| 0 <= i < size && 0 <= j < size && grid[i][j] != 0 && c == [Var(size, i, j, grid[i][j])];
      ModelOfVar(g, size, i, j, g[i][j]);
    }
  }

  /** Decoding the model of a filled grid gives the grid back. */
  lemma DecodeModelOf(g: Grid, size: nat)
    requires WellFormed(g, size) && Filled(g, size)
    ensures Decode(ModelOf(g, size), size) == g
  {
    var m := ModelOf(g, size);
    var d := Decode(m, size);
    forall i, j | 0 <= i < size && 0 <= j < size
      ensures d[i][j] == g[i][j]
    {
      forall n | 1 <= n <= size
        ensures Var(size, i, j, n) in m <==> g[i][j] == n
      {
        ModelOfVar(g, size, i, j, n);
      }
      DecodeExactlyOne(m, size, i, j, g[i][j]);
    }
    assert forall i :: 0 <= i < size ==> d[i] == g[i];
  }

  /**
   * Completeness: every solved grid (numbers in 1..size, is_goal holds) that
   * keeps the puzzle's givens gives a consistent model of all the clauses,
   * and decoding that model gives the grid back.
   */
  lemma SolutionGivesModel(grid: Grid, g: Grid)
    requires |grid| >= 1 && WellFormed(grid, |grid|) && WellFormed(g, |grid|)
    requires BlockShape(|grid|, BlockSide(|grid|))
    requires Filled(g, |grid|) && IsGoal(g, |grid|, BlockSide(|grid|)) && KeepsGivens(grid, |grid|, g)
    ensures Consistent(ModelOf(g, |grid|)) && Satisfies(ModelOf(g, |grid|), Encode(grid).All())
    ensures Decode(ModelOf(g, |grid|), |grid|) == g
  {
    var size, block := |grid|, BlockSide(|grid|);
    var m := ModelOf(g, size);
    var cs := Encode(grid);
    ModelOfConsistent(g, size);
    ModelOfCells(g, size);
    ModelOfLines(g, size);
    ModelOfBlocks(g, size, block);
    ModelOfGivens(grid, g, size);
    forall c | c in cs.All()
      ensures Holds(m, c)
    {
      AllMember(cs, c);
    }
    DecodeModelOf(g, size);
  }
}
