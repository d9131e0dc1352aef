/**
 * The CNF encoding of sat_solver.py and the decoding of a model.
 *
 * A literal is a nonzero integer and a clause a list of literals, as the
 * solver library takes them. Each rule family is a function written as the
 * source's loops append (a concatenation over a range, or over a range with a
 * step), and a method with those loops is proved to build exactly that list.
 * The solver itself is not modelled: what it is given is the Clauses value,
 * and what it answers (a model, or nothing when the clauses are
 * unsatisfiable) is an input.
 */
module SatEncoding {
  import opened Common
  import opened Sudoku

  type Clause = seq<int>

  // ---------------------------------------------------------------------------
  // Variables

  /** var(i, j, n): the variable "cell (i, j) holds n". */
  function Var(size: int, i: int, j: int, n: int): int {
    i * size * size + j * size + n
  }

  /** Var less one, read as the digits (i, j, n - 1) in base size. */
  lemma VarDigits(size: nat, i: int, j: int, n: int)
    requires 0 <= i < size && 0 <= j < size && 1 <= n <= size
    ensures (Var(size, i, j, n) - 1) / size == i * size + j && (Var(size, i, j, n) - 1) % size == n - 1
    ensures (i * size + j) / size == i && (i * size + j) % size == j
  {
    assert Var(size, i, j, n) - 1 == (i * size + j) * size + (n - 1);
    DivModOf(i * size + j, n - 1, size);
    DivModOf(i, j, size);
  }

  /** Every variable of the encoding lies in 1 .. size^3. */
  lemma VarRange(size: nat, i: int, j: int, n: int)
    requires 0 <= i < size && 0 <= j < size && 1 <= n <= size
    ensures 1 <= Var(size, i, j, n) <= size * size * size
  {
    var k := i * size + j;
    CellIndexRange(size, i, j);
    assert Var(size, i, j, n) == k * size + n by {
      assert i * size * size == (i * size) * size;
      assert (i * size + j) * size == (i * size) * size + j * size;
    }
    MulLe(k, size * size - 1, size);
    MulLe(0, k, size);
    assert (size * size - 1) * size == size * size * size - size;
  }

  /** The cell (i, j) has row-major index i * size + j in 0 .. size^2 - 1. */
  lemma CellIndexRange(size: nat, i: int, j: int)
    requires 0 <= i < size && 0 <= j < size
    ensures 0 <= i * size + j <= size * size - 1
  {
    MulLe(i, size - 1, size);
    MulLe(0, i, size);
    assert (size - 1) * size == size * size - size;
  }

  /** Different (cell, number) triples have different variables. */
  lemma VarInjective(size: nat, i: int, j: int, n: int, i': int, j': int, n': int)
    requires 0 <= i < size && 0 <= j < size && 1 <= n <= size
    requires 0 <= i' < size && 0 <= j' < size && 1 <= n' <= size
    ensures Var(size, i, j, n) == Var(size, i', j', n') <==> i == i' && j == j' && n == n'
  {
    VarDigits(size, i, j, n);
    VarDigits(size, i', j', n');
  }

  // ---------------------------------------------------------------------------
  // int(size ** 0.5)

  /** The integer square root: the largest r with r * r <= n. */
  function ISqrt(n: nat): (r: nat)
    ensures r * r <= n < (r + 1) * (r + 1)
  {
    if n == 0 then 0
    else
      var r := ISqrt(n - 1);
      if (r + 1) * (r + 1) <= n then r + 1 else r
  }

  /** The block side of a size that is a perfect square is its root. */
  lemma ISqrtOfSquare(b: nat)
    ensures ISqrt(b * b) == b
  {
    RootOfSquare(b, ISqrt(b * b));
  }

  /** The only r with r * r <= b * b < (r + 1) * (r + 1) is b. */
  lemma RootOfSquare(b: nat, r: nat)
    requires r * r <= b * b < (r + 1) * (r + 1)
    ensures r == b
  {
    if r < b {
      SquareLe(r + 1, b);
    } else if r > b {
      SquareLe(b + 1, r);
    }
  }

  lemma SquareLe(x: nat, y: nat)
    requires x <= y
    ensures x * x <= y * y
  {
    MulLe(x, y, x);
    MulLe(x, y, y);
  }

  // ---------------------------------------------------------------------------
  // "At most one of these variables": one clause per pair of positions

  /** The clause "not both x and y". */
  function NotBoth(x: int, y: int): Clause {
    [-x, -y]
  }

  /** for b in range(a + 1, hi): the clause for the pair (a, b). */
  function PairsFrom(vars: seq<int>, a: int, hi: int): seq<Clause>
    requires 0 <= a < |vars| && hi <= |vars|
  {
    Concat(a + 1, hi, b requires 0 <= b < |vars| => [NotBoth(vars[a], vars[b])])
  }

  /** for a in range(hi): for b in range(a + 1, len(vars)): the clause for the pair (a, b). */
  function PairsUpto(vars: seq<int>, hi: int): seq<Clause>
    requires hi <= |vars|
  {
    Concat(0, hi, a requires 0 <= a < |vars| => PairsFrom(vars, a, |vars|))
  }

  /** One clause per pair of positions a < b of vars, in the order the source's two loops produce them. */
  function AtMostOne(vars: seq<int>): seq<Clause> {
    PairsUpto(vars, |vars|)
  }

  /** Every clause of AtMostOne(vars) is "not both" of two positions a < b. */
  lemma AtMostOneOnly(vars: seq<int>, c: Clause)
    requires c in AtMostOne(vars)
    ensures exists a, b :: 0 <= a < b < |vars| && c == NotBoth(vars[a], vars[b])
  {
    var f := a requires 0 <= a < |vars| => PairsFrom(vars, a, |vars|);
    ConcatMember(0, |vars|, f, c);
    var a :| 0 <= a < |vars| && c in f(a);
    var g := b requires 0 <= b < |vars| => [NotBoth(vars[a], vars[b])];
    ConcatMember(a + 1, |vars|, g, c);
    var b :| a + 1 <= b < |vars| && c in g(b);
    assert c == NotBoth(vars[a], vars[b]);
  }

  /** For positions a < b, "not both vars[a] and vars[b]" is among the clauses. */
  lemma AtMostOneHas(vars: seq<int>, a: int, b: int)
    requires 0 <= a < b < |vars|
    ensures NotBoth(vars[a], vars[b]) in AtMostOne(vars)
  {
    var c := NotBoth(vars[a], vars[b]);
    var f := a requires 0 <= a < |vars| => PairsFrom(vars, a, |vars|);
    var g := b requires 0 <= b < |vars| => [NotBoth(vars[a], vars[b])];
    ConcatHas(a + 1, |vars|, g, b, c);
    ConcatHas(0, |vars|, f, a, c);
  }

  /** The clauses are exactly "not both vars[a] and vars[b]" for positions a < b. */
  lemma AtMostOneMember(vars: seq<int>, c: Clause)
    ensures c in AtMostOne(vars) <==>
            exists a, b :: 0 <= a < b < |vars| && c == NotBoth(vars[a], vars[b])
  {
    if c in AtMostOne(vars) {
      AtMostOneOnly(vars, c);
    }
    if exists a, b :: 0 <= a < b < |vars| && c == NotBoth(vars[a], vars[b]) {
      var a, b :| 0 <= a < b < |vars| && c == NotBoth(vars[a], vars[b]);
      AtMostOneHas(vars, a, b);
    }
  }

  lemma {:induction false} PairsUptoLength(vars: seq<int>, hi: nat)
    requires hi <= |vars|
    ensures 2 * |PairsUpto(vars, hi)| == hi * (2 * |vars| - hi - 1)
  {
    if hi > 0 {
      PairsUptoLength(vars, hi - 1);
      ConcatLength(hi, |vars|, b requires 0 <= b < |vars| => [NotBoth(vars[hi - 1], vars[b])], 1);
      assert |PairsFrom(vars, hi - 1, |vars|)| == |vars| - hi;
      assert PairsUpto(vars, hi) == PairsUpto(vars, hi - 1) + PairsFrom(vars, hi - 1, |vars|);
      assert hi * (2 * |vars| - hi - 1) == (hi - 1) * (2 * |vars| - (hi - 1) - 1) + 2 * (|vars| - hi);
    }
  }

  /** One clause per unordered pair: len * (len - 1) / 2 clauses. */
  lemma AtMostOneLength(vars: seq<int>)
    ensures |AtMostOne(vars)| == |vars| * (|vars| - 1) / 2
  {
    PairsUptoLength(vars, |vars|);
  }

  /** The two loops over positions a < b that append the pair clauses. */
  method AppendAtMostOne(clauses: seq<Clause>, vars: seq<int>) returns (clauses': seq<Clause>)
    ensures clauses' == clauses + AtMostOne(vars)
  {
    clauses' := clauses;
    for a := 0 to |vars|
      invariant clauses' == clauses + PairsUpto(vars, a)
    {
      for b := a + 1 to |vars|
        invariant clauses' == clauses + PairsUpto(vars, a) + PairsFrom(vars, a, b)
      {
        clauses' := clauses' + [NotBoth(vars[a], vars[b])];
      }
    }
  }

  // ---------------------------------------------------------------------------
  // Two nested loops over range(size)

  /** for y in range(hi): f(x, y) */
  function Row2(size: nat, x: int, hi: int, f: (int, int) --> seq<Clause>): seq<Clause>
    requires 0 <= x < size && hi <= size
    requires forall x, y :: 0 <= x < size && 0 <= y < size ==> f.requires(x, y)
  {
    Concat(0, hi, y requires 0 <= y < size => f(x, y))
  }

  /** for x in range(hi): for y in range(size): f(x, y) */
  function Grid2Upto(size: nat, hi: int, f: (int, int) --> seq<Clause>): seq<Clause>
    requires hi <= size
    requires forall x, y :: 0 <= x < size && 0 <= y < size ==> f.requires(x, y)
  {
    Concat(0, hi, x requires 0 <= x < size => Row2(size, x, size, f))
  }

  function Grid2(size: nat, f: (int, int) --> seq<Clause>): seq<Clause>
    requires forall x, y :: 0 <= x < size && 0 <= y < size ==> f.requires(x, y)
  {
    Grid2Upto(size, size, f)
  }

  lemma Grid2Member(size: nat, f: (int, int) --> seq<Clause>, c: Clause)
    requires forall x, y :: 0 <= x < size && 0 <= y < size ==> f.requires(x, y)
    ensures c in Grid2(size, f) <==> exists x, y :: 0 <= x < size && 0 <= y < size && c in f(x, y)
  {
    var rows := x requires 0 <= x < size => Row2(size, x, size, f);
    ConcatMember(0, size, rows, c);
    if c in Grid2(size, f) {
      var x :| 0 <= x < size && c in rows(x);
      var cells := y requires 0 <= y < size => f(x, y);
      ConcatMember(0, size, cells, c);
      var y :| 0 <= y < size && c in cells(y);
      assert c in f(x, y);
    }
    if exists x, y :: 0 <= x < size && 0 <= y < size && c in f(x, y) {
      var x, y :| 0 <= x < size && 0 <= y < size && c in f(x, y);
      var cells := y requires 0 <= y < size => f(x, y);
      ConcatHas(0, size, cells, y, c);
      ConcatHas(0, size, rows, x, c);
    }
  }

  lemma Grid2Length(size: nat, f: (int, int) --> seq<Clause>, n: nat)
    requires forall x, y :: 0 <= x < size && 0 <= y < size ==> f.requires(x, y) && |f(x, y)| == n
    ensures |Grid2(size, f)| == size * size * n
  {
    forall x | 0 <= x < size
      ensures |Row2(size, x, size, f)| == size * n
    {
      ConcatLength(0, size, y requires 0 <= y < size => f(x, y), n);
    }
    ConcatLength(0, size, x requires 0 <= x < size => Row2(size, x, size, f), size * n);
  }

  // ---------------------------------------------------------------------------
  // Rules 1 to 5

  /** [var(i, j, n + 1) for n in range(size)]: the variables of one cell. */
  function CellVars(size: nat, i: int, j: int): (vars: seq<int>)
    ensures |vars| == size && forall n :: 0 <= n < size ==> vars[n] == Var(size, i, j, n + 1)
  {
    seq(size, n => Var(size, i, j, n + 1))
  }

  /** The variables "number n + 1 at (i, j)" for j in range(size): one number along row i. */
  function RowVars(size: nat, i: int, n: int): (vars: seq<int>)
    ensures |vars| == size && forall j :: 0 <= j < size ==> vars[j] == Var(size, i, j, n + 1)
  {
    seq(size, j => Var(size, i, j, n + 1))
  }

  /** The variables "number n + 1 at (i, j)" for i in range(size): one number down column j. */
  function ColVars(size: nat, j: int, n: int): (vars: seq<int>)
    ensures |vars| == size && forall i :: 0 <= i < size ==> vars[i] == Var(size, i, j, n + 1)
  {
    seq(size, i => Var(size, i, j, n + 1))
  }

  function Rule1Cell(size: nat): (int, int) -> seq<Clause> {
    (i, j) => [CellVars(size, i, j)]
  }

  function Rule2Cell(size: nat): (int, int) -> seq<Clause> {
    (i, j) => AtMostOne(CellVars(size, i, j))
  }

  function Rule3Cell(size: nat): (int, int) -> seq<Clause> {
    (i, n) => AtMostOne(RowVars(size, i, n))
  }

  function Rule4Cell(size: nat): (int, int) -> seq<Clause> {
    (j, n) => AtMostOne(ColVars(size, j, n))
  }

  /** The unit clause of a given, or nothing for an empty cell. */
  function Given(grid: Grid, size: nat, i: int, j: int): seq<Clause>
    requires WellFormed(grid, size) && 0 <= i < size && 0 <= j < size
  {
    if grid[i][j] != 0 then [[Var(size, i, j, grid[i][j])]] else []
  }

  function Rule5Cell(grid: Grid, size: nat): (int, int) --> seq<Clause>
    requires WellFormed(grid, size)
    ensures forall i, j :: 0 <= i < size && 0 <= j < size ==> Rule5Cell(grid, size).requires(i, j)
  {
    (i, j) requires WellFormed(grid, size) && 0 <= i < size && 0 <= j < size => Given(grid, size, i, j)
  }

  /** Rule 1: each cell holds at least one number. */
  function Rule1(size: nat): seq<Clause> {
    Grid2(size, Rule1Cell(size))
  }

  /** Rule 2: each cell holds at most one number. */
  function Rule2(size: nat): seq<Clause> {
    Grid2(size, Rule2Cell(size))
  }

  /** Rule 3: a number appears at most once in a row. */
  function Rule3(size: nat): seq<Clause> {
    Grid2(size, Rule3Cell(size))
  }

  /** Rule 4: a number appears at most once in a column. */
  function Rule4(size: nat): seq<Clause> {
    Grid2(size, Rule4Cell(size))
  }

  /** Rule 5: every given keeps its number. */
  function Rule5(grid: Grid, size: nat): seq<Clause>
    requires WellFormed(grid, size)
  {
    Grid2(size, Rule5Cell(grid, size))
  }

  /** Rule 1 holds one clause per cell, made of the positive literals var(i, j, 1 .. size). */
  lemma Rule1Member(size: nat, c: Clause)
    ensures c in Rule1(size) <==> exists i, j :: 0 <= i < size && 0 <= j < size && c == CellVars(size, i, j)
    ensures |Rule1(size)| == size * size
  {
    Grid2Member(size, Rule1Cell(size), c);
    Grid2Length(size, Rule1Cell(size), 1);
    if c in Rule1(size) {
      var i, j :| 0 <= i < size && 0 <= j < size && c in Rule1Cell(size)(i, j);
      assert c == CellVars(size, i, j);
    }
    if exists i, j :: 0 <= i < size && 0 <= j < size && c == CellVars(size, i, j) {
      var i, j :| 0 <= i < size && 0 <= j < size && c == CellVars(size, i, j);
      assert c in Rule1Cell(size)(i, j);
    }
  }

  lemma Rule2Only(size: nat, c: Clause)
    requires c in Rule2(size)
    ensures exists i, j, a, b :: 0 <= i < size && 0 <= j < size && 1 <= a < b <= size &&
                                 c == NotBoth(Var(size, i, j, a), Var(size, i, j, b))
  {
    Grid2Member(size, Rule2Cell(size), c);
    var i, j :| 0 <= i < size && 0 <= j < size && c in Rule2Cell(size)(i, j);
    var vars := CellVars(size, i, j);
    AtMostOneOnly(vars, c);
    var a, b :| 0 <= a < b < |vars| && c == NotBoth(vars[a], vars[b]);
    assert 1 <= a + 1 < b + 1 <= size && c == NotBoth(Var(size, i, j, a + 1), Var(size, i, j, b + 1));
  }

  lemma Rule2Has(size: nat, i: int, j: int, a: int, b: int)
    requires 0 <= i < size && 0 <= j < size && 1 <= a < b <= size
    ensures NotBoth(Var(size, i, j, a), Var(size, i, j, b)) in Rule2(size)
  {
    var c := NotBoth(Var(size, i, j, a), Var(size, i, j, b));
    var vars := CellVars(size, i, j);
    AtMostOneHas(vars, a - 1, b - 1);
    assert c in Rule2Cell(size)(i, j);
    Grid2Member(size, Rule2Cell(size), c);
  }

  /** Rule 2 holds, for each cell and numbers a < b, the clause [-var(i, j, a), -var(i, j, b)]. */
  lemma Rule2Member(size: nat, c: Clause)
    ensures c in Rule2(size) <==>
            exists i, j, a, b :: 0 <= i < size && 0 <= j < size && 1 <= a < b <= size &&
                                 c == NotBoth(Var(size, i, j, a), Var(size, i, j, b))
  {
    if c in Rule2(size) {
      Rule2Only(size, c);
    }
    if exists i, j, a, b :: 0 <= i < size && 0 <= j < size && 1 <= a < b <= size &&
                            c == NotBoth(Var(size, i, j, a), Var(size, i, j, b)) {
      var i, j, a, b :| 0 <= i < size && 0 <= j < size && 1 <= a < b <= size &&
                        c == NotBoth(Var(size, i, j, a), Var(size, i, j, b));
      Rule2Has(size, i, j, a, b);
    }
  }

  /** Rule 2 has size^2 * size * (size - 1) / 2 clauses. */
  lemma Rule2Length(size: nat)
    ensures |Rule2(size)| == size * size * (size * (size - 1) / 2)
  {
    forall i, j | 0 <= i < size && 0 <= j < size
      ensures |Rule2Cell(size)(i, j)| == size * (size - 1) / 2
    {
      AtMostOneLength(CellVars(size, i, j));
    }
    Grid2Length(size, Rule2Cell(size), size * (size - 1) / 2);
  }

  /** Rule 3 has size^2 * size * (size - 1) / 2 clauses: one per row, number and pair of columns. */
  lemma Rule3Length(size: nat)
    ensures |Rule3(size)| == size * size * (size * (size - 1) / 2)
  {
    forall i, n | 0 <= i < size && 0 <= n < size
      ensures |Rule3Cell(size)(i, n)| == size * (size - 1) / 2
    {
      AtMostOneLength(RowVars(size, i, n));
    }
    Grid2Length(size, Rule3Cell(size), size * (size - 1) / 2);
  }

  lemma Rule3Only(size: nat, c: Clause)
    requires c in Rule3(size)
    ensures exists i, n, j1, j2 :: 0 <= i < size && 1 <= n <= size && 0 <= j1 < j2 < size &&
                                   c == NotBoth(Var(size, i, j1, n), Var(size, i, j2, n))
  {
    Grid2Member(size, Rule3Cell(size), c);
    var i, n :| 0 <= i < size && 0 <= n < size && c in Rule3Cell(size)(i, n);
    var vars := RowVars(size, i, n);
    AtMostOneOnly(vars, c);
    var j1, j2 :| 0 <= j1 < j2 < |vars| && c == NotBoth(vars[j1], vars[j2]);
    assert 1 <= n + 1 <= size && c == NotBoth(Var(size, i, j1, n + 1), Var(size, i, j2, n + 1));
  }

  lemma Rule3Has(size: nat, i: int, n: int, j1: int, j2: int)
    requires 0 <= i < size && 1 <= n <= size && 0 <= j1 < j2 < size
    ensures NotBoth(Var(size, i, j1, n), Var(size, i, j2, n)) in Rule3(size)
  {
    var c := NotBoth(Var(size, i, j1, n), Var(size, i, j2, n));
    var vars := RowVars(size, i, n - 1);
    AtMostOneHas(vars, j1, j2);
    assert c in Rule3Cell(size)(i, n - 1);
    Grid2Member(size, Rule3Cell(size), c);
  }

  /** Rule 3 holds, for each row i, number n and columns j1 < j2, the clause [-var(i, j1, n), -var(i, j2, n)]. */
  lemma Rule3Member(size: nat, c: Clause)
    ensures c in Rule3(size) <==>
            exists i, n, j1, j2 :: 0 <= i < size && 1 <= n <= size && 0 <= j1 < j2 < size &&
                                   c == NotBoth(Var(size, i, j1, n), Var(size, i, j2, n))
  {
    if c in Rule3(size) {
      Rule3Only(size, c);
    }
    if exists i, n, j1, j2 :: 0 <= i < size && 1 <= n <= size && 0 <= j1 < j2 < size &&
                              c == NotBoth(Var(size, i, j1, n), Var(size, i, j2, n)) {
      var i, n, j1, j2 :| 0 <= i < size && 1 <= n <= size && 0 <= j1 < j2 < size &&
                          c == NotBoth(Var(size, i, j1, n), Var(size, i, j2, n));
      Rule3Has(size, i, n, j1, j2);
    }
  }

  /** Rule 4 has size^2 * size * (size - 1) / 2 clauses: one per column, number and pair of rows. */
  lemma Rule4Length(size: nat)
    ensures |Rule4(size)| == size * size * (size * (size - 1) / 2)
  {
    forall j, n | 0 <= j < size && 0 <= n < size
      ensures |Rule4Cell(size)(j, n)| == size * (size - 1) / 2
    {
      AtMostOneLength(ColVars(size, j, n));
    }
    Grid2Length(size, Rule4Cell(size), size * (size - 1) / 2);
  }

  lemma Rule4Only(size: nat, c: Clause)
    requires c in Rule4(size)
    ensures exists j, n, i1, i2 :: 0 <= j < size && 1 <= n <= size && 0 <= i1 < i2 < size &&
                                   c == NotBoth(Var(size, i1, j, n), Var(size, i2, j, n))
  {
    Grid2Member(size, Rule4Cell(size), c);
    var j, n :| 0 <= j < size && 0 <= n < size && c in Rule4Cell(size)(j, n);
    var vars := ColVars(size, j, n);
    AtMostOneOnly(vars, c);
    var i1, i2 :| 0 <= i1 < i2 < |vars| && c == NotBoth(vars[i1], vars[i2]);
    assert 1 <= n + 1 <= size && c == NotBoth(Var(size, i1, j, n + 1), Var(size, i2, j, n + 1));
  }

  lemma Rule4Has(size: nat, j: int, n: int, i1: int, i2: int)
    requires 0 <= j < size && 1 <= n <= size && 0 <= i1 < i2 < size
    ensures NotBoth(Var(size, i1, j, n), Var(size, i2, j, n)) in Rule4(size)
  {
    var c := NotBoth(Var(size, i1, j, n), Var(size, i2, j, n));
    var vars := ColVars(size, j, n - 1);
    AtMostOneHas(vars, i1, i2);
    assert c in Rule4Cell(size)(j, n - 1);
    Grid2Member(size, Rule4Cell(size), c);
  }

  /** Rule 4 holds, for each column j, number n and rows i1 < i2, the clause [-var(i1, j, n), -var(i2, j, n)]. */
  lemma Rule4Member(size: nat, c: Clause)
    ensures c in Rule4(size) <==>
            exists j, n, i1, i2 :: 0 <= j < size && 1 <= n <= size && 0 <= i1 < i2 < size &&
                                   c == NotBoth(Var(size, i1, j, n), Var(size, i2, j, n))
  {
    if c in Rule4(size) {
      Rule4Only(size, c);
    }
    if exists j, n, i1, i2 :: 0 <= j < size && 1 <= n <= size && 0 <= i1 < i2 < size &&
                              c == NotBoth(Var(size, i1, j, n), Var(size, i2, j, n)) {
      var j, n, i1, i2 :| 0 <= j < size && 1 <= n <= size && 0 <= i1 < i2 < size &&
                          c == NotBoth(Var(size, i1, j, n), Var(size, i2, j, n));
      Rule4Has(size, j, n, i1, i2);
    }
  }

  /** Rule 5 holds exactly the unit clauses [var(i, j, grid[i][j])] of the nonzero cells. */
  lemma Rule5Member(grid: Grid, size: nat, c: Clause)
    requires WellFormed(grid, size)
    ensures c in Rule5(grid, size) <==>
            exists i, j :: 0 <= i < size && 0 <= j < size && grid[i][j] != 0 && c == [Var(size, i, j, grid[i][j])]
  {
    Grid2Member(size, Rule5Cell(grid, size), c);
    if c in Rule5(grid, size) {
      var i, j :| 0 <= i < size && 0 <= j < size && c in Rule5Cell(grid, size)(i, j);
      assert grid[i][j] != 0 && c == [Var(size, i, j, grid[i][j])];
    }
    if exists i, j :: 0 <= i < size && 0 <= j < size && grid[i][j] != 0 && c == [Var(size, i, j, grid[i][j])] {
      var i, j :| 0 <= i < size && 0 <= j < size && grid[i][j] != 0 && c == [Var(size, i, j, grid[i][j])];
      assert c in Rule5Cell(grid, size)(i, j);
    }
  }

  // ---------------------------------------------------------------------------
  // The loops of rules 1 to 5

  /** Rule 1: for each cell, append the clause of its variables. */
  method AddRule1(size: nat) returns (clauses: seq<Clause>)
    ensures clauses == Rule1(size)
  {
    clauses := [];
    for i := 0 to size
      invariant clauses == Grid2Upto(size, i, Rule1Cell(size))
    {
      for j := 0 to size
        invariant clauses == Grid2Upto(size, i, Rule1Cell(size)) + Row2(size, i, j, Rule1Cell(size))
      {
        var clause := seq(size, n => Var(size, i, j, n + 1));
        clauses := clauses + [clause];
      }
    }
  }

  /** Rule 2: for each cell, append the pair clauses over its numbers. */
  method AddRule2(size: nat) returns (clauses: seq<Clause>)
    ensures clauses == Rule2(size)
  {
    clauses := [];
    for i := 0 to size
      invariant clauses == Grid2Upto(size, i, Rule2Cell(size))
    {
      for j := 0 to size
        invariant clauses == Grid2Upto(size, i, Rule2Cell(size)) + Row2(size, i, j, Rule2Cell(size))
      {
        clauses := AppendAtMostOne(clauses, CellVars(size, i, j));
      }
    }
  }

  /** Rule 3: for each row and number, append the pair clauses over the row's columns. */
  method AddRule3(size: nat) returns (clauses: seq<Clause>)
    ensures clauses == Rule3(size)
  {
    clauses := [];
    for i := 0 to size
      invariant clauses == Grid2Upto(size, i, Rule3Cell(size))
    {
      for n := 0 to size
        invariant clauses == Grid2Upto(size, i, Rule3Cell(size)) + Row2(size, i, n, Rule3Cell(size))
      {
        clauses := AppendAtMostOne(clauses, RowVars(size, i, n));
      }
    }
  }

  /** Rule 4: for each column and number, append the pair clauses over the column's rows. */
  method AddRule4(size: nat) returns (clauses: seq<Clause>)
    ensures clauses == Rule4(size)
  {
    clauses := [];
    for j := 0 to size
      invariant clauses == Grid2Upto(size, j, Rule4Cell(size))
    {
      for n := 0 to size
        invariant clauses == Grid2Upto(size, j, Rule4Cell(size)) + Row2(size, j, n, Rule4Cell(size))
      {
        clauses := AppendAtMostOne(clauses, ColVars(size, j, n));
      }
    }
  }

  /** Rule 5: for each nonzero cell, append its unit clause. */
  method AddRule5(grid: Grid, size: nat) returns (clauses: seq<Clause>)
    requires WellFormed(grid, size)
    ensures clauses == Rule5(grid, size)
  {
    clauses := [];
    for i := 0 to size
      invariant clauses == Grid2Upto(size, i, Rule5Cell(grid, size))
    {
      for j := 0 to size
        invariant clauses == Grid2Upto(size, i, Rule5Cell(grid, size)) + Row2(size, i, j, Rule5Cell(grid, size))
      {
        if grid[i][j] != 0 {
          clauses := clauses + [[Var(size, i, j, grid[i][j])]];
        }
      }
    }
  }

  // ---------------------------------------------------------------------------
  // Rule 6: blocks

  /** for j in range(bj, bj + block): the cell (i, j) */
  function BlockRowCells(i: int, bj: int, block: nat): seq<Cell> {
    Concat(bj, bj + block, col => [(i, col)])
  }

  /** cells_in_block: the cells of the block at (bi, bj), row by row. */
  function BlockCellList(bi: int, bj: int, block: nat): seq<Cell> {
    Concat(bi, bi + block, row => BlockRowCells(row, bj, block))
  }

  /** The list the source builds is the block's cells in row-major order. */
  lemma BlockCellListIs(bi: int, bj: int, block: nat)
    requires block > 0
    ensures BlockCellList(bi, bj, block) == BlockCells(bi, bj, block)
  {
    var rows := row => BlockRowCells(row, bj, block);
    forall row
      ensures |BlockRowCells(row, bj, block)| == block
    {
      BlockRowCellsAt(row, bj, block, 0);
    }
    ConcatLength(bi, bi + block, rows, block);
    var cells := BlockCellList(bi, bj, block);
    forall k | 0 <= k < block * block
      ensures cells[k] == BlockCells(bi, bj, block)[k]
    {
      ConcatIndex(bi, bi + block, rows, block, k);
      BlockRowCellsAt(bi + k / block, bj, block, k % block);
    }
  }

  /** The cells of one block row are (row, bj), (row, bj + 1), ... */
  lemma BlockRowCellsAt(row: int, bj: int, block: nat, m: int)
    requires 0 <= m < block
    ensures |BlockRowCells(row, bj, block)| == block && BlockRowCells(row, bj, block)[m] == (row, bj + m)
  {
    ConcatIndex(bj, bj + block, col => [(row, col)], 1, m);
    assert m / 1 == m && m % 1 == 0;
  }

  /** The variables "number n + 1 at that cell" for a list of cells, in the list's order. */
  function BlockVars(size: nat, cells: seq<Cell>, n: int): (vars: seq<int>)
    ensures |vars| == |cells|
    ensures forall k :: 0 <= k < |cells| ==> vars[k] == Var(size, cells[k].0, cells[k].1, n + 1)
  {
    seq(|cells|, k requires 0 <= k < |cells| => Var(size, cells[k].0, cells[k].1, n + 1))
  }

  /** for n in range(hi): the pair clauses of number n + 1 over the block at (bi, bj) */
  function Rule6BlockUpto(size: nat, block: nat, bi: int, bj: int, hi: int): seq<Clause> {
    Concat(0, hi, n => AtMostOne(BlockVars(size, BlockCellList(bi, bj, block), n)))
  }

  /** for bj in range(0, size, block): the clauses of the block at (bi, bj) */
  function Rule6Row(size: nat, block: nat, bi: int): seq<Clause>
    requires block > 0
  {
    Strided(0, size, block, bj => Rule6BlockUpto(size, block, bi, bj, size))
  }

  /** Rule 6: a number appears at most once in a block. */
  function Rule6(size: nat, block: nat): seq<Clause>
    requires block > 0
  {
    Strided(0, size, block, bi => Rule6Row(size, block, bi))
  }

  /** The clauses of one block: b^2 * (b^2 - 1) / 2 pairs for each of the size numbers. */
  lemma Rule6BlockLength(size: nat, block: nat, bi: int, bj: int)
    requires block > 0
    ensures |Rule6BlockUpto(size, block, bi, bj, size)| == size * (block * block * (block * block - 1) / 2)
  {
    var pairs := block * block * (block * block - 1) / 2;
    BlockCellListIs(bi, bj, block);
    forall n | 0 <= n < size
      ensures |AtMostOne(BlockVars(size, BlockCellList(bi, bj, block), n))| == pairs
    {
      AtMostOneLength(BlockVars(size, BlockCellList(bi, bj, block), n));
    }
    ConcatLength(0, size, n => AtMostOne(BlockVars(size, BlockCellList(bi, bj, block), n)), pairs);
  }

  /**
   * Rule 6 has one group of size * b^2 * (b^2 - 1) / 2 clauses (b the block side) per pair of block
   * corners, and there are ceil(size / b) corners along each side.
   */
  lemma Rule6Length(size: nat, block: nat)
    requires block > 0
    ensures var corners := (size + block - 1) / block;
            |Rule6(size, block)| == corners * (corners * (size * (block * block * (block * block - 1) / 2)))
  {
    var pairs := block * block * (block * block - 1) / 2;
    forall bi, bj
      ensures |Rule6BlockUpto(size, block, bi, bj, size)| == size * pairs
    {
      Rule6BlockLength(size, block, bi, bj);
    }
    forall bi
      ensures |Rule6Row(size, block, bi)| == StridedCount(0, size, block) * (size * pairs)
    {
      StridedLength(0, size, block, bj => Rule6BlockUpto(size, block, bi, bj, size), size * pairs);
    }
    StridedLength(0, size, block, bi => Rule6Row(size, block, bi), StridedCount(0, size, block) * (size * pairs));
    StridedCountIs(0, size, block);
  }

  /** The clause of rule 6 for number n and the cells at positions a and b of the block at (bi, bj). */
  function BlockPair(size: nat, block: nat, bi: int, bj: int, n: int, a: int, b: int): Clause
    requires block > 0 && 0 <= a < block * block && 0 <= b < block * block
  {
    var cells := BlockCells(bi, bj, block);
    NotBoth(Var(size, cells[a].0, cells[a].1, n), Var(size, cells[b].0, cells[b].1, n))
  }

  /** A block corner: a multiple of the block side inside the grid. */
  predicate Corner(size: nat, block: nat, x: int)
    requires block > 0
  {
    0 <= x < size && x % block == 0
  }

  lemma StridedCorner(size: nat, block: nat, x: int)
    requires block > 0
    ensures Corner(size, block, x) <==> exists q: nat :: q * block == x && x < size
  {
    if Corner(size, block, x) {
      var q := x / block;
      assert q * block == x;
    }
    if exists q: nat :: q * block == x && x < size {
      var q: nat :| q * block == x && x < size;
      DivModOf(q, 0, block);
      MulLe(0, q, block);
    }
  }

  /** The pieces of a concatenation over range(0, size, block) are those at the block corners. */
  lemma StridedCornerMember<T>(size: nat, block: nat, f: int -> seq<T>, x: T)
    requires block > 0
    ensures x in Strided(0, size, block, f) <==> exists y :: Corner(size, block, y) && x in f(y)
  {
    StridedMember(0, size, block, f, x);
    if x in Strided(0, size, block, f) {
      var q: nat :| 0 + q * block < size && x in f(0 + q * block);
      StridedCorner(size, block, q * block);
    }
    if exists y :: Corner(size, block, y) && x in f(y) {
      var y :| Corner(size, block, y) && x in f(y);
      StridedCorner(size, block, y);
      var q: nat :| q * block == y && y < size;
      assert 0 + q * block < size && x in f(0 + q * block);
    }
  }

  /** A block pair clause is the pair clause of positions a and b of the block's variables for n. */
  lemma BlockPairVars(size: nat, block: nat, bi: int, bj: int, n: int, a: int, b: int)
    requires block > 0 && 0 <= a < block * block && 0 <= b < block * block
    ensures var vars := BlockVars(size, BlockCellList(bi, bj, block), n - 1);
            |vars| == block * block && BlockPair(size, block, bi, bj, n, a, b) == NotBoth(vars[a], vars[b])
  {
    BlockCellListIs(bi, bj, block);
  }

  /** The clauses of one block are the pair clauses of its cells, for each number. */
  lemma Rule6BlockMember(size: nat, block: nat, bi: int, bj: int, c: Clause)
    requires block > 0
    ensures c in Rule6BlockUpto(size, block, bi, bj, size) <==>
            exists n, a, b :: 1 <= n <= size && 0 <= a < b < block * block && c == BlockPair(size, block, bi, bj, n, a, b)
  {
    if c in Rule6BlockUpto(size, block, bi, bj, size) {
      Rule6BlockOnly(size, block, bi, bj, c);
    }
    if exists n, a, b :: 1 <= n <= size && 0 <= a < b < block * block && c == BlockPair(size, block, bi, bj, n, a, b) {
      var n, a, b :| 1 <= n <= size && 0 <= a < b < block * block && c == BlockPair(size, block, bi, bj, n, a, b);
      Rule6BlockHas(size, block, bi, bj, n, a, b);
    }
  }

  lemma Rule6BlockOnly(size: nat, block: nat, bi: int, bj: int, c: Clause)
    requires block > 0 && c in Rule6BlockUpto(size, block, bi, bj, size)
    ensures exists n, a, b :: 1 <= n <= size && 0 <= a < b < block * block && c == BlockPair(size, block, bi, bj, n, a, b)
  {
    var nums := n => AtMostOne(BlockVars(size, BlockCellList(bi, bj, block), n));
    ConcatMember(0, size, nums, c);
    var n :| 0 <= n < size && c in nums(n);
    var vars := BlockVars(size, BlockCellList(bi, bj, block), n);
    AtMostOneMember(vars, c);
    var a, b :| 0 <= a < b < |vars| && c == NotBoth(vars[a], vars[b]);
    BlockCellListIs(bi, bj, block);
    assert |vars| == block * block;
    BlockPairVars(size, block, bi, bj, n + 1, a, b);
    assert c == BlockPair(size, block, bi, bj, n + 1, a, b);
  }

  lemma Rule6BlockHas(size: nat, block: nat, bi: int, bj: int, n: int, a: int, b: int)
    requires block > 0 && 1 <= n <= size && 0 <= a < b < block * block
    ensures BlockPair(size, block, bi, bj, n, a, b) in Rule6BlockUpto(size, block, bi, bj, size)
  {
    var c := BlockPair(size, block, bi, bj, n, a, b);
    var nums := n => AtMostOne(BlockVars(size, BlockCellList(bi, bj, block), n));
    var vars := BlockVars(size, BlockCellList(bi, bj, block), n - 1);
    BlockPairVars(size, block, bi, bj, n, a, b);
    AtMostOneMember(vars, c);
    assert c in nums(n - 1);
    ConcatHas(0, size, nums, n - 1, c);
  }

  /**
   * Rule 6 holds, for each block corner (bi, bj), number n and positions
   * a < b of the block's cells in row-major order, the clause
   * [-var(cell a, n), -var(cell b, n)].
   */
  lemma Rule6Member(size: nat, block: nat, c: Clause)
    requires block > 0
    ensures c in Rule6(size, block) <==>
            exists bi, bj, n, a, b :: Corner(size, block, bi) && Corner(size, block, bj) && 1 <= n <= size &&
                                      0 <= a < b < block * block && c == BlockPair(size, block, bi, bj, n, a, b)
  {
    StridedCornerMember(size, block, bi => Rule6Row(size, block, bi), c);
    if c in Rule6(size, block) {
      var bi :| Corner(size, block, bi) && c in Rule6Row(size, block, bi);
      StridedCornerMember(size, block, bj => Rule6BlockUpto(size, block, bi, bj, size), c);
      var bj :| Corner(size, block, bj) && c in Rule6BlockUpto(size, block, bi, bj, size);
      Rule6BlockMember(size, block, bi, bj, c);
      var n, a, b :| 1 <= n <= size && 0 <= a < b < block * block && c == BlockPair(size, block, bi, bj, n, a, b);
    }
    if exists bi, bj, n, a, b :: Corner(size, block, bi) && Corner(size, block, bj) && 1 <= n <= size &&
                                 0 <= a < b < block * block && c == BlockPair(size, block, bi, bj, n, a, b) {
      var bi, bj, n, a, b :| Corner(size, block, bi) && Corner(size, block, bj) && 1 <= n <= size &&
                             0 <= a < b < block * block && c == BlockPair(size, block, bi, bj, n, a, b);
      Rule6BlockMember(size, block, bi, bj, c);
      StridedCornerMember(size, block, bj => Rule6BlockUpto(size, block, bi, bj, size), c);
      assert c in Rule6Row(size, block, bi);
    }
  }

  /** The two loops that collect cells_in_block. */
  method CollectBlockCells(bi: int, bj: int, block: nat) returns (cells: seq<Cell>)
    ensures cells == BlockCellList(bi, bj, block)
  {
    cells := [];
    for i := bi to bi + block
      invariant cells == Concat(bi, i, row => BlockRowCells(row, bj, block))
    {
      for j := bj to bj + block
        invariant cells == Concat(bi, i, row => BlockRowCells(row, bj, block)) + Concat(bj, j, col => [(i, col)])
      {
        cells := cells + [(i, j)];
      }
    }
  }

  /** The body of rule 6 for one block: for each number, collect the cells, then append the pair clauses. */
  method AppendBlockClauses(clauses: seq<Clause>, size: nat, block: nat, bi: int, bj: int)
    returns (clauses': seq<Clause>)
    ensures clauses' == clauses + Rule6BlockUpto(size, block, bi, bj, size)
  {
    clauses' := clauses;
    for n := 0 to size
      invariant clauses' == clauses + Rule6BlockUpto(size, block, bi, bj, n)
    {
      var cells := CollectBlockCells(bi, bj, block);
      clauses' := AppendAtMostOne(clauses', BlockVars(size, cells, n));
    }
  }

  /** The inner loop of rule 6 over the block corners of one band of rows, with a step of block. */
  method AppendRowClauses(clauses: seq<Clause>, size: nat, block: nat, bi: int) returns (clauses': seq<Clause>)
    requires block > 0
    ensures clauses' == clauses + Rule6Row(size, block, bi)
  {
    clauses' := clauses;
    var bj := 0;
    while bj < size
      invariant clauses' + Strided(bj, size, block, bj => Rule6BlockUpto(size, block, bi, bj, size)) ==
                clauses + Rule6Row(size, block, bi)
      decreases size - bj
    {
      StridedStep(clauses', bj, size, block, bj => Rule6BlockUpto(size, block, bi, bj, size));
      clauses' := AppendBlockClauses(clauses', size, block, bi, bj);
      bj := bj + block;
    }
  }

  /** Rule 6: the outer loop over block corners, with a step of block. */
  method AddRule6(size: nat, block: nat) returns (clauses: seq<Clause>)
    requires block > 0
    ensures clauses == Rule6(size, block)
  {
    clauses := [];
    var bi := 0;
    while bi < size
      invariant clauses + Strided(bi, size, block, bi => Rule6Row(size, block, bi)) == Rule6(size, block)
      decreases size - bi
    {
      StridedStep(clauses, bi, size, block, bi => Rule6Row(size, block, bi));
      clauses := AppendRowClauses(clauses, size, block, bi);
      bi := bi + block;
    }
  }

  // ---------------------------------------------------------------------------
  // Decoding a model

  /**
   * The value the decoding loop leaves in cell (i, j) after the numbers
   * 1 .. hi: the last n with var(i, j, n) true, or 0.
   */
  function LastTrue(model: set<int>, size: nat, i: int, j: int, hi: nat): (v: nat)
    ensures v <= hi
    ensures v == 0 ==> forall n :: 1 <= n <= hi ==> Var(size, i, j, n) !in model
    ensures v != 0 ==> Var(size, i, j, v) in model && forall n :: v < n <= hi ==> Var(size, i, j, n) !in model
  {
    if hi == 0 then 0
    else if Var(size, i, j, hi) in model then hi
    else LastTrue(model, size, i, j, hi - 1)
  }

  /** The grid a model decodes to. */
  function Decode(model: set<int>, size: nat): (grid: Grid)
    ensures WellFormed(grid, size)
    ensures forall i, j :: 0 <= i < size && 0 <= j < size ==> grid[i][j] == LastTrue(model, size, i, j, size)
  {
    seq(size, i => seq(size, j => LastTrue(model, size, i, j, size)))
  }

  /** A cell with exactly one true variable decodes to that variable's number. */
  lemma DecodeExactlyOne(model: set<int>, size: nat, i: int, j: int, n: int)
    requires 0 <= i < size && 0 <= j < size && 1 <= n <= size
    requires Var(size, i, j, n) in model
    requires forall m :: 1 <= m <= size && m != n ==> Var(size, i, j, m) !in model
    ensures Decode(model, size)[i][j] == n
  {
  }

  /** The decoding loop: a grid of zeros, then for each cell and number, overwrite when the variable is true. */
  method DecodeModel(model: set<int>, size: nat) returns (solution: Grid)
    ensures solution == Decode(model, size)
  {
    solution := seq(size, _ => seq(size, _ => 0));
    for i := 0 to size
      invariant WellFormed(solution, size)
      invariant forall r, c :: 0 <= r < size && 0 <= c < size ==>
                  solution[r][c] == if r < i then LastTrue(model, size, r, c, size) else 0
    {
      for j := 0 to size
        invariant WellFormed(solution, size)
        invariant forall r, c :: 0 <= r < size && 0 <= c < size ==>
                    solution[r][c] == if Before(r, c, i, j) then LastTrue(model, size, r, c, size) else 0
      {
        for n := 0 to size
          invariant WellFormed(solution, size)
          invariant forall r, c :: 0 <= r < size && 0 <= c < size ==>
                      solution[r][c] == if Before(r, c, i, j) then LastTrue(model, size, r, c, size)
                                        else if r == i && c == j then LastTrue(model, size, r, c, n)
                                        else 0
        {
          if Var(size, i, j, n + 1) in model {
            solution := solution[i := solution[i][j := n + 1]];
          }
        }
      }
    }
    assert forall r :: 0 <= r < size ==> solution[r] == Decode(model, size)[r];
  }

  // ---------------------------------------------------------------------------
  // solve_sudoku_sat

  /** The clauses dictionary: one list per rule. */
  datatype Clauses = Clauses(
    rule1: seq<Clause>, rule2: seq<Clause>, rule3: seq<Clause>,
    rule4: seq<Clause>, rule5: seq<Clause>, rule6: seq<Clause>)
  {
    /** Every clause given to the solver, in the order it was added. */
    function All(): seq<Clause> {
      rule1 + rule2 + rule3 + rule4 + rule5 + rule6
    }
  }

  /** A clause is given to the solver exactly when it is in one of the six lists. */
  lemma AllMember(cs: Clauses, c: Clause)
    ensures c in cs.All() <==>
            c in cs.rule1 || c in cs.rule2 || c in cs.rule3 || c in cs.rule4 || c in cs.rule5 || c in cs.rule6
  {
  }

  /** The block side: int(size ** 0.5). */
  function BlockSide(size: nat): (block: nat)
    requires size >= 1
    ensures block >= 1 && block * block <= size
  {
    ISqrt(size)
  }

  /** The six clause lists built for a grid whose side is len(grid). */
  function Encode(grid: Grid): Clauses
    requires |grid| >= 1 && WellFormed(grid, |grid|)
  {
    var size := |grid|;
    Clauses(Rule1(size), Rule2(size), Rule3(size), Rule4(size), Rule5(grid, size), Rule6(size, BlockSide(size)))
  }

  /**
   * solve_sudoku_sat as its callers use it: the clauses are always returned,
   * with the decoded grid when the solver found a model and None otherwise.
   */
  method SolveSudokuSat(grid: Grid, answer: Option<set<int>>) returns (solution: Option<Grid>, clauses: Clauses)
    requires |grid| >= 1 && WellFormed(grid, |grid|)
    ensures clauses == Encode(grid)
    ensures solution.None? <==> answer.None?
    ensures answer.Some? ==> solution == Some(Decode(answer.value, |grid|))
  {
    var size := |grid|;
    var rule1 := AddRule1(size);
    var rule2 := AddRule2(size);
    var rule3 := AddRule3(size);
    var rule4 := AddRule4(size);
    var rule5 := AddRule5(grid, size);
    var block := ISqrt(size);
    var rule6 := AddRule6(size, block);
    clauses := Clauses(rule1, rule2, rule3, rule4, rule5, rule6);
    match answer
    case None =>
      solution := None;
    case Some(model) =>
      var decoded := DecodeModel(model, size);
      solution := Some(decoded);
  }

  /** solve_sudoku_sat as written: the pair (solution, clauses), or a bare None when the solver finds no model. */
  function SolveAsWritten(grid: Grid, answer: Option<set<int>>): (r: Option<(Grid, Clauses)>)
    requires |grid| >= 1 && WellFormed(grid, |grid|)
    ensures r.None? <==> answer.None?
    ensures answer.Some? ==> r == Some((Decode(answer.value, |grid|), Encode(grid)))
  {
    match answer
    case None => None
    case Some(model) => Some((Decode(model, |grid|), Encode(grid)))
  }

  /**
   * `solution, clauses = solve_sudoku_sat(puzzle)`: the unpacking the callers
   * do, which fails (None here) when there is no pair to unpack.
   */
  function UnpackAtCaller(r: Option<(Grid, Clauses)>): (unpacked: Option<(Option<Grid>, Clauses)>)
    ensures unpacked.None? <==> r.None?
  {
    match r
    case None => None
    case Some((g, cs)) => Some((Some(g), cs))
  }

  /**
   * On a puzzle the solver reports unsatisfiable, the result as written has
   * nothing for the caller to unpack, while the corrected result carries the
   * clauses and no grid.
   */
  method UnsatResult(grid: Grid) returns (asWritten: Option<(Option<Grid>, Clauses)>, corrected: Option<Grid>)
    requires |grid| >= 1 && WellFormed(grid, |grid|)
    ensures asWritten.None?
    ensures corrected.None?
  {
    asWritten := UnpackAtCaller(SolveAsWritten(grid, None));
    var clauses;
    corrected, clauses := SolveSudokuSat(grid, None);
  }
}
