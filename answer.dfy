/** Reading the solution off a final tableau (determine_answer).

    The basis map records, for every constraint row, the column that row
    owns. A structural variable that owns a row takes that row's RHS; every
    other structural variable is 0. A non-basic column whose objective
    entry is exactly 0 and which has a positive entry in one of the rows
    scanned turns the whole answer into the infeasibility marker. */
module Answers {
  import opened Vectors
  import opened Tableau

  /** What the solver reports: a point, "no solution" ([-1]) or
      "unbounded" ([inf]). */
  datatype Solution = Bounded(x: Row) | Infeasible | Unbounded

  /** Column i is not basic, its objective entry is exactly 0, and one of
      the constraint rows 0 .. n-2 holds a positive entry in it (the scan
      stops one row short of the last constraint row). */
  predicate Flagged(t: Matrix, basis: seq<int>, m: nat, n: nat, i: nat)
    requires Rectangular(t, n + 1, m + n + 1) && i < m + n
    ensures Flagged(t, basis, m, n, i) ==> n >= 2 && i !in basis && t[n][i] == 0.0
  {
    i !in basis && t[n][i] == 0.0 && exists j :: 0 <= j < n - 1 && t[j][i] > 0.0
  }

  /** The value the answer gives structural variable i: the RHS of the row
      it owns (its first occurrence in the basis map), or 0. */
  function StructuralValue(t: Matrix, basis: seq<int>, m: nat, n: nat, i: nat): (v: real)
    requires Rectangular(t, n + 1, m + n + 1) && |basis| == n
    ensures i !in basis ==> v == 0.0
    ensures i in basis ==>
      exists r :: 0 <= r < n && basis[r] == i && (forall q :: 0 <= q < r ==> basis[q] != i) && v == t[r][m + n]
  {
    if i in basis then t[IndexOf(basis, i)][m + n] else 0.0
  }

  /** The answer determine_answer computes. */
  function AnswerOf(t: Matrix, basis: seq<int>, m: nat, n: nat): (r: Solution)
    requires Rectangular(t, n + 1, m + n + 1) && |basis| == n
    ensures r.Bounded? ==> |r.x| == m
    ensures r.Bounded? || r.Infeasible?
  {
    if exists i :: 0 <= i < m + n && Flagged(t, basis, m, n, i) then Infeasible
    else Bounded(seq(m, i requires 0 <= i < m => StructuralValue(t, basis, m, n, i)))
  }

  /** Scans the columns in order, filling the answer and stopping at the first
      flagged column. */
  method DetermineAnswer(tableau: Matrix, slack: seq<int>, m: nat, n: nat) returns (ans: Solution)
    requires Rectangular(tableau, n + 1, m + n + 1) && |slack| == n
    ensures ans == AnswerOf(tableau, slack, m, n)
  {
    var x := Zeros(m);
    for i := 0 to n + m
      invariant |x| == m
      invariant forall k :: 0 <= k < i && k < m ==> x[k] == StructuralValue(tableau, slack, m, n, k)
      invariant forall k :: i <= k < m ==> x[k] == 0.0
      invariant forall k :: 0 <= k < i ==> !Flagged(tableau, slack, m, n, k)
    {
      if i < m && i in slack {
        var index := IndexOf(slack, i);
        x := x[i := tableau[index][m + n]];
      } else if i !in slack && tableau[n][i] == 0.0 {
        var j := 0;
        while j < n - 1
          invariant 0 <= j <= n
          invariant forall q :: 0 <= q < j ==> tableau[q][i] <= 0.0
        {
          if tableau[j][i] > 0.0 {
            assert Flagged(tableau, slack, m, n, i);
            return Infeasible;
          }
          j := j + 1;
        }
      } else if i < m {
        x := x[i := 0.0];
      }
    }
    assert x == seq(m, i requires 0 <= i < m => StructuralValue(tableau, slack, m, n, i));
    return Bounded(x);
  }

  // ---------------------------------------------------------------------
  // The answer is the basic solution of the tableau

  /** The value of column j at the basic point: RHS / pivot cell of the row
      owning j, or 0 when j is not basic. */
  function BasicValue(t: Matrix, basis: seq<int>, m: nat, n: nat, j: nat): real
    requires Rectangular(t, n + 1, m + n + 1) && BasisIsolated(t, basis, n, m + n + 1)
  {
    if j in basis then
      var r := IndexOf(basis, j);
      t[r][m + n] / t[r][j]
    else 0.0
  }

  /** The point (structural values, then slack values) that sets every
      non-basic column to 0 and solves each row for its basic column. */
  function BasicPoint(t: Matrix, basis: seq<int>, m: nat, n: nat): (z: Row)
    requires Rectangular(t, n + 1, m + n + 1) && BasisIsolated(t, basis, n, m + n + 1)
    ensures |z| == m + n
  {
    seq(m + n, j requires 0 <= j < m + n => BasicValue(t, basis, m, n, j))
  }

  /** The basic point solves every constraint row of the tableau, and the
      objective row evaluates at it to minus the objective RHS. */
  lemma BasicPointSolves(t: Matrix, basis: seq<int>, m: nat, n: nat)
    requires Rectangular(t, n + 1, m + n + 1) && BasisIsolated(t, basis, n, m + n + 1)
    ensures ConstraintsHold(t, BasicPoint(t, basis, m, n), n)
    ensures Residual(t[n], BasicPoint(t, basis, m, n)) == -t[n][m + n]
  {
    forall r | 0 <= r < n
      ensures Residual(t[r], BasicPoint(t, basis, m, n)) == 0.0
    {
      BasicRowSolved(t, basis, m, n, r);
    }
    BasicObjective(t, basis, m, n);
  }

  lemma BasicRowSolved(t: Matrix, basis: seq<int>, m: nat, n: nat, r: nat)
    requires Rectangular(t, n + 1, m + n + 1) && BasisIsolated(t, basis, n, m + n + 1) && r < n
    ensures Residual(t[r], BasicPoint(t, basis, m, n)) == 0.0
  {
    var z := BasicPoint(t, basis, m, n);
    var w := m + n;
    var j := basis[r];
    BasisIsolatedDistinct(t, basis, n, w + 1);
    assert IndexOf(basis, j) == r;
    forall q | 0 <= q < w && q != j
      ensures t[r][q] == 0.0 || z[q] == 0.0
    {
      if q in basis {
        var r' := IndexOf(basis, q);
        assert t[r][basis[r']] == 0.0;
      }
    }
    DotOneTerm(t[r], z, w, j);
    assert z[j] == t[r][w] / t[r][j];
    QuotientCancels(t[r][j], t[r][w]);
  }

  lemma BasicObjective(t: Matrix, basis: seq<int>, m: nat, n: nat)
    requires Rectangular(t, n + 1, m + n + 1) && BasisIsolated(t, basis, n, m + n + 1)
    ensures Residual(t[n], BasicPoint(t, basis, m, n)) == -t[n][m + n]
  {
    var z := BasicPoint(t, basis, m, n);
    forall q | 0 <= q < m + n
      ensures t[n][q] == 0.0 || z[q] == 0.0
    {
      if q in basis {
        var r' := IndexOf(basis, q);
        assert t[n][basis[r']] == 0.0;
      }
    }
    DotVanishes(t[n], z, m + n);
  }

  lemma QuotientCancels(d: real, v: real)
    requires d != 0.0
    ensures d * (v / d) == v
  {
  }

  /** A bounded answer is the structural part of the basic point, provided
      every structural basic column carries 1 on its row. */
  lemma AnswerIsBasicPoint(t: Matrix, basis: seq<int>, m: nat, n: nat)
    requires Rectangular(t, n + 1, m + n + 1) && BasisIsolated(t, basis, n, m + n + 1)
    requires StructuralBasisUnit(t, basis, n, m + n + 1, m)
    requires AnswerOf(t, basis, m, n).Bounded?
    ensures AnswerOf(t, basis, m, n).x == BasicPoint(t, basis, m, n)[..m]
  {
    var x := AnswerOf(t, basis, m, n).x;
    var z := BasicPoint(t, basis, m, n);
    forall i | 0 <= i < m
      ensures x[i] == z[i]
    {
      if i in basis {
        var r := IndexOf(basis, i);
        assert t[r][i] == 1.0;
      }
    }
  }
}
