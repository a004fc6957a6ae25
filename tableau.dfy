/** Tableau construction (CreateTableau) and the facts about tableaux that
    the pivoting and solving modules share.

    A problem "maximise c.x subject to a x <= b, x >= 0" with n constraints
    and m = |c| variables becomes n constraint rows followed by the
    objective row, each of width m + n + 1: m structural columns, one slack
    column per constraint, and the right-hand side (RHS) last. */
module Tableau {
  import opened Vectors

  /** n rows of |c| coefficients and n bounds: the shape the reader of the
      problem produces. */
  predicate WellFormedProblem(a: Matrix, b: Row, c: Row, n: nat)
  {
    |a| == n && |b| == n && forall i :: 0 <= i < n ==> |a[i]| == |c|
  }

  /** Every one of the `rows` rows has exactly `width` cells. */
  predicate Rectangular(t: Matrix, rows: nat, width: nat)
  {
    |t| == rows && forall i :: 0 <= i < rows ==> |t[i]| == width
  }

  function Negate(r: Row): (s: Row)
    ensures |s| == |r|
    ensures forall k :: 0 <= k < |r| ==> s[k] == -r[k]
  {
    seq(|r|, k requires 0 <= k < |r| => -1.0 * r[k])
  }

  /** The n slack cells of constraint row i: `v` in column i, zero elsewhere. */
  function SlackCells(n: nat, i: nat, v: real): (s: Row)
    requires i < n
    ensures |s| == n && s[i] == v
    ensures forall k :: 0 <= k < n && k != i ==> s[k] == 0.0
  {
    Zeros(n)[i := v]
  }

  /** In two-phase mode a constraint with a negative bound is multiplied by -1. */
  predicate Flipped(b: Row, i: nat, phaseOne: bool)
    requires i < |b|
  {
    phaseOne && b[i] < 0.0
  }

  /** Row i of the tableau: a[i], the slack cells and b[i], all negated when
      the row is flipped (its slack cell then holds -1). */
  function ConstraintRow(a: Matrix, b: Row, n: nat, i: nat, phaseOne: bool): Row
    requires |a| == n && |b| == n && i < n
  {
    if Flipped(b, i, phaseOne) then
      Negate(a[i]) + (SlackCells(n, i, -1.0) + [-1.0 * b[i]])
    else
      a[i] + (SlackCells(n, i, 1.0) + [b[i]])
  }

  /** The last row: negated objective coefficients, zero slack cells, RHS 0. */
  function ObjectiveRow(c: Row, n: nat): Row
  {
    Negate(c) + (Zeros(n) + [0.0])
  }

  /** Cell-wise sum of two rows, as long as the shorter one. */
  function AddRows(p: Row, q: Row): (s: Row)
    ensures |s| == (if |p| <= |q| then |p| else |q|)
    ensures forall k :: 0 <= k < |s| ==> s[k] == p[k] + q[k]
  {
    var len := if |p| <= |q| then |p| else |q|;
    seq(len, k requires 0 <= k < len => p[k] + q[k])
  }

  /** The auxiliary phase-one row after the first k constraints: it starts as
      |c| + n + 2 zeros and every flipped row is added to it. */
  function PhaseOneAccumulation(a: Matrix, b: Row, c: Row, n: nat, phaseOne: bool, k: nat): (p: Row)
    requires WellFormedProblem(a, b, c, n) && k <= n
    ensures |p| == |c| + n + 2 || |p| == |c| + n + 1
  {
    if k == 0 then Zeros(|c| + n + 2)
    else
      var acc := PhaseOneAccumulation(a, b, c, n, phaseOne, k - 1);
      if Flipped(b, k - 1, phaseOne) then AddRows(acc, ConstraintRow(a, b, n, k - 1, phaseOne))
      else acc
  }

  function InitialTableau(a: Matrix, b: Row, c: Row, n: nat, phaseOne: bool): (t: Matrix)
    requires WellFormedProblem(a, b, c, n)
    ensures Rectangular(t, n + 1, |c| + n + 1)
  {
    seq(n, i requires 0 <= i < n => ConstraintRow(a, b, n, i, phaseOne)) + [ObjectiveRow(c, n)]
  }

  /** Builds the tableau row by row, accumulating the phase-one row from the
      flipped rows. */
  method CreateTableau(a: Matrix, b: Row, c: Row, n: nat, phaseOne: bool)
    returns (tableau: Matrix, phaseOneRow: Row)
    requires WellFormedProblem(a, b, c, n)
    ensures tableau == InitialTableau(a, b, c, n, phaseOne)
    ensures phaseOneRow == PhaseOneAccumulation(a, b, c, n, phaseOne, n)
  {
    tableau := [];
    phaseOneRow := Zeros(|c| + n + 2);
    for i := 0 to n
      invariant tableau == seq(i, j requires 0 <= j < i => ConstraintRow(a, b, n, j, phaseOne))
      invariant phaseOneRow == PhaseOneAccumulation(a, b, c, n, phaseOne, i)
    {
      if phaseOne && b[i] < 0.0 {
        var slackVariables := Zeros(n)[i := -1.0];
        var tableauRow := Negate(a[i]) + (slackVariables + [-1.0 * b[i]]);
        tableau := tableau + [tableauRow];
        phaseOneRow := AddRows(phaseOneRow, tableauRow);
      } else {
        var slackVariables := Zeros(n)[i := 1.0];
        var tableauRow := a[i] + (slackVariables + [b[i]]);
        tableau := tableau + [tableauRow];
      }
    }
    var finalRow := Negate(c) + (Zeros(n) + [0.0]);
    tableau := tableau + [finalRow];
  }

  // ---------------------------------------------------------------------
  // Shape of the initial tableau

  /** n + 1 rows of m + n + 1 cells; the last row is the negated objective. */
  lemma InitialTableauShape(a: Matrix, b: Row, c: Row, n: nat, phaseOne: bool)
    requires WellFormedProblem(a, b, c, n)
    ensures Rectangular(InitialTableau(a, b, c, n, phaseOne), n + 1, |c| + n + 1)
    ensures forall k :: 0 <= k < |c| ==> InitialTableau(a, b, c, n, phaseOne)[n][k] == -c[k]
    ensures forall k :: |c| <= k <= |c| + n ==> InitialTableau(a, b, c, n, phaseOne)[n][k] == 0.0
  {
    var t := InitialTableau(a, b, c, n, phaseOne);
    forall i | 0 <= i < n
      ensures |t[i]| == |c| + n + 1
    {
      assert t[i] == ConstraintRow(a, b, n, i, phaseOne);
    }
  }

  /** Cell (i, k) of the initial tableau: row i of `a` (negated when flipped)
      in the structural columns, a +1 or -1 on the slack diagonal and b[i]
      (negated when flipped) as RHS. */
  lemma ConstraintRowCells(a: Matrix, b: Row, c: Row, n: nat, phaseOne: bool, i: nat)
    requires WellFormedProblem(a, b, c, n) && i < n
    ensures var r := InitialTableau(a, b, c, n, phaseOne)[i];
      var sign := if Flipped(b, i, phaseOne) then -1.0 else 1.0;
      |r| == |c| + n + 1 &&
      (forall k :: 0 <= k < |c| ==> r[k] == sign * a[i][k]) &&
      (forall k :: |c| <= k < |c| + n ==> r[k] == if k == |c| + i then sign else 0.0) &&
      r[|c| + n] == sign * b[i]
  {
    var r := InitialTableau(a, b, c, n, phaseOne)[i];
    assert r == ConstraintRow(a, b, n, i, phaseOne);
  }

  /** In two-phase mode every RHS of the initial tableau is non-negative. */
  lemma PhaseOneRhsNonNegative(a: Matrix, b: Row, c: Row, n: nat, i: nat)
    requires WellFormedProblem(a, b, c, n) && i < n
    ensures InitialTableau(a, b, c, n, true)[i][|c| + n] >= 0.0
  {
    ConstraintRowCells(a, b, c, n, true, i);
  }

  // ---------------------------------------------------------------------
  // The phase-one row

  /** Sum of cell `col` over the flipped rows among the first k. */
  function FlippedColumnSum(a: Matrix, b: Row, c: Row, n: nat, phaseOne: bool, k: nat, col: nat): real
    requires WellFormedProblem(a, b, c, n) && k <= n && col <= |c| + n
  {
    if k == 0 then 0.0
    else
      FlippedColumnSum(a, b, c, n, phaseOne, k - 1, col) +
      (if Flipped(b, k - 1, phaseOne) then InitialTableau(a, b, c, n, phaseOne)[k - 1][col] else 0.0)
  }

  /** Without a flipped row the phase-one row stays |c| + n + 2 zeros; with one
      it has the tableau's width and each cell is the column sum of the
      flipped rows. */
  lemma {:induction false} PhaseOneRowIsColumnSum(a: Matrix, b: Row, c: Row, n: nat, phaseOne: bool, k: nat)
    requires WellFormedProblem(a, b, c, n) && k <= n
    ensures var p := PhaseOneAccumulation(a, b, c, n, phaseOne, k);
      ((forall i :: 0 <= i < k ==> !Flipped(b, i, phaseOne)) ==> p == Zeros(|c| + n + 2)) &&
      ((exists i :: 0 <= i < k && Flipped(b, i, phaseOne)) ==>
         |p| == |c| + n + 1 &&
         forall col :: 0 <= col <= |c| + n ==> p[col] == FlippedColumnSum(a, b, c, n, phaseOne, k, col))
  {
    if k > 0 {
      PhaseOneRowIsColumnSum(a, b, c, n, phaseOne, k - 1);
      var prev := PhaseOneAccumulation(a, b, c, n, phaseOne, k - 1);
      var p := PhaseOneAccumulation(a, b, c, n, phaseOne, k);
      InitialTableauShape(a, b, c, n, phaseOne);
      var row := InitialTableau(a, b, c, n, phaseOne)[k - 1];
      assert row == ConstraintRow(a, b, n, k - 1, phaseOne);
      if Flipped(b, k - 1, phaseOne) {
        assert p == AddRows(prev, row);
        if exists i :: 0 <= i < k - 1 && Flipped(b, i, phaseOne) {
        } else {
          forall col | 0 <= col <= |c| + n
            ensures p[col] == FlippedColumnSum(a, b, c, n, phaseOne, k, col)
          {
            FlippedSumZero(a, b, c, n, phaseOne, k - 1, col);
          }
        }
      } else {
        assert p == prev;
        forall col | 0 <= col <= |c| + n
          ensures FlippedColumnSum(a, b, c, n, phaseOne, k, col) == FlippedColumnSum(a, b, c, n, phaseOne, k - 1, col)
        {
        }
        if exists i :: 0 <= i < k && Flipped(b, i, phaseOne) {
          var i :| 0 <= i < k && Flipped(b, i, phaseOne);
          assert i < k - 1;
        }
      }
    }
  }

  lemma {:induction false} FlippedSumZero(a: Matrix, b: Row, c: Row, n: nat, phaseOne: bool, k: nat, col: nat)
    requires WellFormedProblem(a, b, c, n) && k <= n && col <= |c| + n
    requires forall i :: 0 <= i < k ==> !Flipped(b, i, phaseOne)
    ensures FlippedColumnSum(a, b, c, n, phaseOne, k, col) == 0.0
  {
    if k > 0 {
      FlippedSumZero(a, b, c, n, phaseOne, k - 1, col);
    }
  }

  // ---------------------------------------------------------------------
  // What a tableau means: every row is an equation over the m + n columns

  /** The amount by which point z misses the equation of `row`:
      row[..w] . z - row[w], where w = |z| is the RHS column. */
  function Residual(row: Row, z: Row): real
    requires |row| == |z| + 1
  {
    Dot(row, z, |z|) - row[|z|]
  }

  /** z satisfies the equations of the first n rows (the constraint rows). */
  predicate ConstraintsHold(t: Matrix, z: Row, n: nat)
    requires n <= |t| && forall i :: 0 <= i < n ==> |t[i]| == |z| + 1
  {
    forall i :: 0 <= i < n ==> Residual(t[i], z) == 0.0
  }

  /** The initial tableau encodes "a x + s == b": for structural values x and
      slack values s, row i misses its equation by exactly
      +-(a[i] . x + s[i] - b[i]), and the objective row evaluates to -c . x. */
  lemma InitialTableauEncodes(a: Matrix, b: Row, c: Row, n: nat, phaseOne: bool, x: Row, s: Row)
    requires WellFormedProblem(a, b, c, n) && |x| == |c| && |s| == n
    ensures var t := InitialTableau(a, b, c, n, phaseOne);
      Rectangular(t, n + 1, |c| + n + 1) &&
      (forall i :: 0 <= i < n ==>
        Residual(t[i], x + s) ==
          (if Flipped(b, i, phaseOne) then -1.0 else 1.0) * (Dot(a[i], x, |c|) + s[i] - b[i])) &&
      Residual(t[n], x + s) == -Dot(c, x, |c|)
  {
    var t := InitialTableau(a, b, c, n, phaseOne);
    var m := |c|;
    InitialTableauShape(a, b, c, n, phaseOne);
    forall i | 0 <= i < n
      ensures Residual(t[i], x + s) ==
          (if Flipped(b, i, phaseOne) then -1.0 else 1.0) * (Dot(a[i], x, m) + s[i] - b[i])
    {
      assert t[i] == ConstraintRow(a, b, n, i, phaseOne);
      ConstraintResidual(a, b, n, phaseOne, x, s, i);
    }
    assert t[n] == ObjectiveRow(c, n);
    ObjectiveResidual(c, n, x, s);
  }

  lemma ObjectiveResidual(c: Row, n: nat, x: Row, s: Row)
    requires |x| == |c| && |s| == n
    ensures |ObjectiveRow(c, n)| == |c| + n + 1
    ensures Residual(ObjectiveRow(c, n), x + s) == -Dot(c, x, |c|)
  {
    var m := |c|;
    var row := ObjectiveRow(c, n);
    var tail := Zeros(n) + [0.0];
    DotSplit(Negate(c), tail, x, s, m, n);
    DotVanishes(tail, s, n);
    ScaledDot(Negate(c), c, x, -1.0);
    BlockArithmetic(Residual(row, x + s), Dot(row, x + s, m + n), Dot(Negate(c), x, m), Dot(tail, s, n),
      Dot(c, x, m), row[m + n], 0.0, 0.0, -1.0);
  }

  lemma ConstraintResidual(a: Matrix, b: Row, n: nat, phaseOne: bool, x: Row, s: Row, i: nat)
    requires |a| == n && |b| == n && i < n && |s| == n && |a[i]| == |x|
    ensures |ConstraintRow(a, b, n, i, phaseOne)| == |x| + n + 1
    ensures Residual(ConstraintRow(a, b, n, i, phaseOne), x + s) ==
          (if Flipped(b, i, phaseOne) then -1.0 else 1.0) * (Dot(a[i], x, |x|) + s[i] - b[i])
  {
    if Flipped(b, i, phaseOne) {
      FlippedRowResidual(a[i], b[i], x, s, i);
    } else {
      PlainRowResidual(a[i], b[i], x, s, i);
    }
  }

  /** A flipped constraint row, -a[i] | -1 on the slack diagonal | -b[i],
      misses its equation by -(a[i] . x + s[i] - b[i]). */
  lemma FlippedRowResidual(ai: Row, bi: real, x: Row, s: Row, i: nat)
    requires |ai| == |x| && i < |s|
    ensures |Negate(ai) + (SlackCells(|s|, i, -1.0) + [-1.0 * bi])| == |x + s| + 1
    ensures Residual(Negate(ai) + (SlackCells(|s|, i, -1.0) + [-1.0 * bi]), x + s) ==
      -1.0 * (Dot(ai, x, |x|) + s[i] - bi)
  {
    var m, n := |x|, |s|;
    var tail := SlackCells(n, i, -1.0) + [-1.0 * bi];
    var row := Negate(ai) + tail;
    DotSplit(Negate(ai), tail, x, s, m, n);
    ScaledDot(Negate(ai), ai, x, -1.0);
    SlackDot(tail, s, i, -1.0);
    BlockArithmetic(Residual(row, x + s), Dot(row, x + s, m + n), Dot(Negate(ai), x, m), Dot(tail, s, n),
      Dot(ai, x, m), row[m + n], s[i], bi, -1.0);
  }

  /** A constraint row as built, a[i] | 1 on the slack diagonal | b[i],
      misses its equation by a[i] . x + s[i] - b[i]. */
  lemma PlainRowResidual(ai: Row, bi: real, x: Row, s: Row, i: nat)
    requires |ai| == |x| && i < |s|
    ensures |ai + (SlackCells(|s|, i, 1.0) + [bi])| == |x + s| + 1
    ensures Residual(ai + (SlackCells(|s|, i, 1.0) + [bi]), x + s) ==
      1.0 * (Dot(ai, x, |x|) + s[i] - bi)
  {
    var m, n := |x|, |s|;
    var tail := SlackCells(n, i, 1.0) + [bi];
    var row := ai + tail;
    DotSplit(ai, tail, x, s, m, n);
    ScaledDot(ai, ai, x, 1.0);
    SlackDot(tail, s, i, 1.0);
    BlockArithmetic(Residual(row, x + s), Dot(row, x + s, m + n), Dot(ai, x, m), Dot(tail, s, n),
      Dot(ai, x, m), row[m + n], s[i], bi, 1.0);
  }

  lemma ScaledDot(lead: Row, ai: Row, x: Row, sign: real)
    requires |lead| == |x| == |ai|
    requires forall j :: 0 <= j < |lead| ==> lead[j] == sign * ai[j]
    ensures Dot(lead, x, |x|) == sign * Dot(ai, x, |x|)
  {
    DotLinear(lead, ai, ai, x, |x|, sign, 0.0);
  }

  lemma SlackDot(tail: Row, s: Row, i: nat, sign: real)
    requires |tail| == |s| + 1 && i < |s| && tail[i] == sign
    requires forall j :: 0 <= j < |s| && j != i ==> tail[j] == 0.0
    ensures Dot(tail, s, |s|) == sign * s[i]
  {
    DotOneTerm(tail, s, |s|, i);
  }

  lemma BlockArithmetic(res: real, dRow: real, dLead: real, dTail: real, dA: real, rhs: real, si: real, bi: real, sign: real)
    requires res == dRow - rhs && dRow == dLead + dTail
    requires dTail == sign * si && dLead == sign * dA && rhs == sign * bi
    ensures res == sign * (dA + si - bi)
  {
  }

  // ---------------------------------------------------------------------
  // The basis map (slack_rows)

  /** The starting basis: row i is owned by its slack column m + i. */
  function SlackBasis(m: nat, n: nat): (basis: seq<int>)
    ensures |basis| == n
    ensures forall i :: 0 <= i < n ==> basis[i] == m + i
  {
    seq(n, i requires 0 <= i < n => m + i)
  }

  /** Constraint row r owns column basis[r], which is not the RHS column: the
      cell (r, basis[r]) is non-zero and every other row, the objective row
      included, holds 0 in that column. */
  predicate BasisIsolated(t: Matrix, basis: seq<int>, n: nat, w: nat)
    requires Rectangular(t, n + 1, w)
  {
    |basis| == n &&
    (forall r :: 0 <= r < n ==> 0 <= basis[r] < w - 1 && t[r][basis[r]] != 0.0) &&
    (forall r, i :: 0 <= r < n && 0 <= i <= n && i != r ==> t[i][basis[r]] == 0.0)
  }

  /** Every structural basic column (index below m) carries exactly 1 on its row. */
  predicate StructuralBasisUnit(t: Matrix, basis: seq<int>, n: nat, w: nat, m: nat)
    requires Rectangular(t, n + 1, w) && BasisIsolated(t, basis, n, w)
  {
    forall r :: 0 <= r < n && basis[r] < m ==> t[r][basis[r]] == 1.0
  }

  /** An isolated basis never names a column twice. */
  lemma BasisIsolatedDistinct(t: Matrix, basis: seq<int>, n: nat, w: nat)
    requires Rectangular(t, n + 1, w) && BasisIsolated(t, basis, n, w)
    ensures Distinct(basis)
  {
    forall r, s | 0 <= r < s < n
      ensures basis[r] != basis[s]
    {
      assert t[s][basis[r]] == 0.0 && t[s][basis[s]] != 0.0;
    }
  }

  /** The slack columns form an isolated basis of the initial tableau, with
      +1 on the diagonal except in flipped rows, where it is -1. */
  lemma InitialBasisIsolated(a: Matrix, b: Row, c: Row, n: nat, phaseOne: bool)
    requires WellFormedProblem(a, b, c, n)
    ensures var t := InitialTableau(a, b, c, n, phaseOne);
      Rectangular(t, n + 1, |c| + n + 1) &&
      BasisIsolated(t, SlackBasis(|c|, n), n, |c| + n + 1) &&
      StructuralBasisUnit(t, SlackBasis(|c|, n), n, |c| + n + 1, |c|) &&
      forall r :: 0 <= r < n ==> t[r][|c| + r] == if Flipped(b, r, phaseOne) then -1.0 else 1.0
  {
    InitialTableauShape(a, b, c, n, phaseOne);
    forall r | 0 <= r < n
      ensures InitialTableau(a, b, c, n, phaseOne)[r][|c| + r] == if Flipped(b, r, phaseOne) then -1.0 else 1.0
      ensures forall i :: 0 <= i <= n && i != r ==> InitialTableau(a, b, c, n, phaseOne)[i][|c| + r] == 0.0
    {
      SlackColumn(a, b, c, n, phaseOne, r);
    }
  }

  /** Slack column m + r of the initial tableau: the diagonal sign on row r,
      0 on every other row. */
  lemma SlackColumn(a: Matrix, b: Row, c: Row, n: nat, phaseOne: bool, r: nat)
    requires WellFormedProblem(a, b, c, n) && r < n
    ensures |InitialTableau(a, b, c, n, phaseOne)| == n + 1
    ensures InitialTableau(a, b, c, n, phaseOne)[r][|c| + r] == if Flipped(b, r, phaseOne) then -1.0 else 1.0
    ensures forall i :: 0 <= i <= n && i != r ==> InitialTableau(a, b, c, n, phaseOne)[i][|c| + r] == 0.0
  {
    InitialTableauShape(a, b, c, n, phaseOne);
    SlackCellsOfRow(a, b, c, n, phaseOne, r);
    forall i | 0 <= i < n && i != r
      ensures InitialTableau(a, b, c, n, phaseOne)[i][|c| + r] == 0.0
    {
      SlackCellsOfRow(a, b, c, n, phaseOne, i);
    }
  }

  /** The slack cells of constraint row i: the diagonal sign in column
      m + i, 0 in the other slack columns. */
  lemma SlackCellsOfRow(a: Matrix, b: Row, c: Row, n: nat, phaseOne: bool, i: nat)
    requires WellFormedProblem(a, b, c, n) && i < n
    ensures |InitialTableau(a, b, c, n, phaseOne)| == n + 1
    ensures |InitialTableau(a, b, c, n, phaseOne)[i]| == |c| + n + 1
    ensures forall k :: |c| <= k < |c| + n ==>
      InitialTableau(a, b, c, n, phaseOne)[i][k] ==
        if k == |c| + i then (if Flipped(b, i, phaseOne) then -1.0 else 1.0) else 0.0
  {
    assert InitialTableau(a, b, c, n, phaseOne)[i] == ConstraintRow(a, b, n, i, phaseOne);
  }
}

