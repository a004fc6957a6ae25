/** One simplex step: choosing the pivot (SelectPivotElement) and the
    Gauss-Jordan elimination around it (ProcessPivotElement). */
module Pivoting {
  import opened Tolerance
  import opened Vectors
  import opened Tableau

  /** A tableau cell chosen as pivot. */
  datatype Position = Position(column: nat, row: nat)

  /** The outcome of pivot selection: whether no row bounds the entering
      column, and the chosen cell. */
  datatype Selection = Selection(noSolution: bool, pivot: Position)

  /** An entry of the ratio test; `Infinite` stands for float("inf"). */
  datatype Ratio = Finite(value: real) | Infinite

  predicate RatioLessEq(p: Ratio, q: Ratio)
  {
    q.Infinite? || (p.Finite? && p.value <= q.value)
  }

  // ---------------------------------------------------------------------
  // Pivot selection

  /** What SelectPivotElement needs: at least one constraint row, rows of the
      objective row's width (at least one column besides the RHS), one basis
      entry per constraint row and, in phase one, a phase-one row with at
      least one cell besides its last that is at most one cell wider than
      the tableau. */
  predicate SelectPre(t: Matrix, slack: seq<int>, phaseOne: bool, p1: Row)
  {
    |t| >= 2 && Rectangular(t, |t|, |t[|t| - 1]|) && |t[|t| - 1]| >= 2 &&
    |slack| == |t| - 1 &&
    (phaseOne ==> 2 <= |p1| <= |t[|t| - 1]| + 1)
  }

  /** Entering column: in phase one the lowest index of the largest phase-one
      cell (RHS excluded); otherwise the lowest index of the smallest
      objective cell (RHS excluded). */
  function EnteringColumn(t: Matrix, phaseOne: bool, p1: Row): (col: nat)
    requires |t| >= 1 && |t[|t| - 1]| >= 2
    requires phaseOne ==> |p1| >= 2
    ensures phaseOne ==> col < |p1| - 1
    ensures !phaseOne ==> col < |t[|t| - 1]| - 1
  {
    if phaseOne then
      var top := MaxReal(p1[..|p1| - 1]);
      assert top in p1;
      IndexOf(p1, top)
    else
      var objective := t[|t| - 1][..|t[|t| - 1]| - 1];
      IndexOf(objective, MinReal(objective))
  }

  /** The ratio of row `row` for the entering column `col`: |RHS / entry| when
      the entry is strictly positive, infinite otherwise. */
  function RatioOf(row: Row, col: nat): Ratio
    requires col < |row|
  {
    if row[col] > 0.0 then Finite(RowRatio(row, col)) else Infinite
  }

  /** |RHS / entry| for a row whose entry in column col is non-zero. */
  function RowRatio(row: Row, col: nat): real
    requires col < |row| && row[col] != 0.0
  {
    Abs(row[|row| - 1] / row[col])
  }

  /** The ratio of every constraint row (all rows but the last). */
  function Ratios(t: Matrix, col: nat): (rs: seq<Ratio>)
    requires |t| >= 1 && forall i :: 0 <= i < |t| ==> col < |t[i]|
    ensures |rs| == |t| - 1
    ensures forall r :: 0 <= r < |t| - 1 ==> rs[r] == RatioOf(t[r], col)
  {
    seq(|t| - 1, r requires 0 <= r < |t| - 1 => RatioOf(t[r], col))
  }

  /** The least ratio (Python's min over floats and infinities). */
  function MinRatio(rs: seq<Ratio>): (r: Ratio)
    requires |rs| > 0
    ensures r in rs
    ensures forall j :: 0 <= j < |rs| ==> RatioLessEq(r, rs[j])
  {
    if |rs| == 1 then rs[0]
    else
      var rest := MinRatio(rs[1..]);
      if RatioLessEq(rs[0], rest) then rs[0] else rest
  }

  /** The indices among the first k whose ratio equals v, in increasing order. */
  function TiedRows(rs: seq<Ratio>, v: Ratio, k: nat): (tied: seq<nat>)
    requires k <= |rs|
    ensures forall j :: 0 <= j < |tied| ==> tied[j] < k && rs[tied[j]] == v
    ensures forall i :: 0 <= i < k && rs[i] == v ==> i in tied
  {
    if k == 0 then []
    else TiedRows(rs, v, k - 1) + (if rs[k - 1] == v then [k - 1] else [])
  }

  /** Leaving row: the row of least ratio; when several rows tie, the row
      (looked up in the basis map) of the smallest basic variable among them. */
  function LeavingRow(rs: seq<Ratio>, slack: seq<int>): (row: nat)
    requires |rs| == |slack| > 0
    ensures row < |rs|
  {
    var rowMin := MinRatio(rs);
    var tied := TiedRows(rs, rowMin, |rs|);
    assert IndexOf(rs, rowMin) in tied;
    if |tied| > 1 then
      var leastVariable := seq(|tied|, j requires 0 <= j < |tied| => slack[tied[j]]);
      var least := MinInt(leastVariable);
      assert least in slack;
      IndexOf(slack, least)
    else
      tied[0]
  }

  /** Chooses the pivot for one simplex step. */
  function SelectPivotElement(t: Matrix, slack: seq<int>, phaseOne: bool, p1: Row): (sel: Selection)
    requires SelectPre(t, slack, phaseOne, p1)
    ensures sel.pivot.row < |t| - 1
    ensures sel.pivot.column < |t[|t| - 1]| - 1 || (phaseOne && sel.pivot.column == |p1| - 2 == |t[|t| - 1]| - 1)
  {
    var col := EnteringColumn(t, phaseOne, p1);
    var ratios := Ratios(t, col);
    var noSolution := forall r | 0 <= r < |ratios| :: ratios[r].Infinite?;
    Selection(noSolution, Position(col, LeavingRow(ratios, slack)))
  }

  /** Outside phase one the entering column holds the smallest objective
      cell, RHS excluded, and no earlier column does. */
  lemma EnteringColumnIsLeastObjective(t: Matrix, slack: seq<int>, p1: Row)
    requires SelectPre(t, slack, false, p1)
    ensures var col := SelectPivotElement(t, slack, false, p1).pivot.column;
      var obj := t[|t| - 1];
      col < |obj| - 1 &&
      (forall k :: 0 <= k < |obj| - 1 ==> obj[col] <= obj[k]) &&
      (forall k :: 0 <= k < col ==> obj[k] > obj[col])
  {
    var obj := t[|t| - 1];
    var prefix := obj[..|obj| - 1];
    var col := IndexOf(prefix, MinReal(prefix));
    assert col == SelectPivotElement(t, slack, false, p1).pivot.column;
    assert forall k :: 0 <= k < |obj| - 1 ==> prefix[k] == obj[k];
  }

  /** In phase one the entering column holds the largest phase-one cell,
      last cell excluded, and no earlier column does. */
  lemma EnteringColumnIsGreatestPhaseOne(t: Matrix, slack: seq<int>, p1: Row)
    requires SelectPre(t, slack, true, p1)
    ensures var col := SelectPivotElement(t, slack, true, p1).pivot.column;
      col < |p1| - 1 &&
      (forall k :: 0 <= k < |p1| - 1 ==> p1[k] <= p1[col]) &&
      (forall k :: 0 <= k < col ==> p1[k] < p1[col])
  {
    var prefix := p1[..|p1| - 1];
    var top := MaxReal(prefix);
    var col := IndexOf(p1, top);
    assert col == SelectPivotElement(t, slack, true, p1).pivot.column;
    assert forall k :: 0 <= k < |p1| - 1 ==> prefix[k] == p1[k];
  }

  /** "No solution" is reported exactly when no constraint row has a strictly
      positive entry in the entering column. */
  lemma NoSolutionIff(t: Matrix, slack: seq<int>, phaseOne: bool, p1: Row)
    requires SelectPre(t, slack, phaseOne, p1)
    ensures var sel := SelectPivotElement(t, slack, phaseOne, p1);
      sel.pivot.column < |t[|t| - 1]| &&
      (sel.noSolution <==> forall r :: 0 <= r < |t| - 1 ==> t[r][sel.pivot.column] <= 0.0)
  {
    var sel := SelectPivotElement(t, slack, phaseOne, p1);
    var ratios := Ratios(t, sel.pivot.column);
    if !sel.noSolution {
      var r :| 0 <= r < |ratios| && !ratios[r].Infinite?;
      assert t[r][sel.pivot.column] > 0.0;
    }
  }

  /** With a distinct basis map and some finite ratio, the leaving row has the
      least ratio, and among rows of equal ratio it has the smallest basic
      variable. */
  lemma LeavingRowRule(rs: seq<Ratio>, slack: seq<int>)
    requires |rs| == |slack| > 0 && Distinct(slack)
    requires exists r :: 0 <= r < |rs| && rs[r].Finite?
    ensures var row := LeavingRow(rs, slack);
      rs[row].Finite? &&
      (forall r :: 0 <= r < |rs| ==> RatioLessEq(rs[row], rs[r])) &&
      (forall r :: 0 <= r < |rs| && rs[r] == rs[row] ==> slack[row] <= slack[r])
  {
    var f :| 0 <= f < |rs| && rs[f].Finite?;
    assert RatioLessEq(MinRatio(rs), rs[f]);
    LeavingRowTieBreak(rs, slack);
  }

  /** The leaving row has the least ratio, and the smallest basic variable
      among the rows of that ratio. */
  lemma LeavingRowTieBreak(rs: seq<Ratio>, slack: seq<int>)
    requires |rs| == |slack| > 0 && Distinct(slack)
    ensures var row := LeavingRow(rs, slack);
      rs[row] == MinRatio(rs) &&
      (forall r :: 0 <= r < |rs| && rs[r] == rs[row] ==> slack[row] <= slack[r])
  {
    if |TiedRows(rs, MinRatio(rs), |rs|)| > 1 {
      ManyTied(rs, slack);
    } else {
      OneTied(rs, slack);
    }
  }

  /** When a single row has the least ratio, it is the leaving row. */
  lemma OneTied(rs: seq<Ratio>, slack: seq<int>)
    requires |rs| == |slack| > 0
    requires |TiedRows(rs, MinRatio(rs), |rs|)| <= 1
    ensures var row := LeavingRow(rs, slack);
      rs[row] == MinRatio(rs) &&
      (forall r :: 0 <= r < |rs| && rs[r] == rs[row] ==> r == row)
  {
    var tied := TiedRows(rs, MinRatio(rs), |rs|);
    var row := LeavingRow(rs, slack);
    assert IndexOf(rs, MinRatio(rs)) in tied;
    assert row == tied[0];
    forall r | 0 <= r < |rs| && rs[r] == rs[row]
      ensures r == row
    {
      assert r in tied;
    }
  }

  /** When several rows tie for the least ratio, the leaving row is the tied
      row of the smallest basic variable. */
  lemma ManyTied(rs: seq<Ratio>, slack: seq<int>)
    requires |rs| == |slack| > 0 && Distinct(slack)
    requires |TiedRows(rs, MinRatio(rs), |rs|)| > 1
    ensures var row := LeavingRow(rs, slack);
      rs[row] == MinRatio(rs) &&
      (forall r :: 0 <= r < |rs| && rs[r] == rs[row] ==> slack[row] <= slack[r])
  {
    var tied := TiedRows(rs, MinRatio(rs), |rs|);
    var row := LeavingRow(rs, slack);
    var leastVariable := seq(|tied|, j requires 0 <= j < |tied| => slack[tied[j]]);
    var least := MinInt(leastVariable);
    var j0 :| 0 <= j0 < |tied| && leastVariable[j0] == least;
    assert row == IndexOf(slack, least);
    assert slack[row] == slack[tied[j0]];
    assert row == tied[j0];
    forall r | 0 <= r < |rs| && rs[r] == rs[row]
      ensures slack[row] <= slack[r]
    {
      assert r in tied;
      var j :| 0 <= j < |tied| && tied[j] == r;
      assert leastVariable[j] == slack[r];
    }
  }

  /** The leaving row's entry in the entering column is strictly positive and
      its ratio |RHS / entry| is least among all rows with a positive entry;
      among rows of equal ratio its basic variable is the smallest. */
  lemma LeavingRowIsMinRatio(t: Matrix, slack: seq<int>, phaseOne: bool, p1: Row)
    requires SelectPre(t, slack, phaseOne, p1) && Distinct(slack)
    requires !SelectPivotElement(t, slack, phaseOne, p1).noSolution
    ensures var sel := SelectPivotElement(t, slack, phaseOne, p1);
      var col, row := sel.pivot.column, sel.pivot.row;
      col < |t[|t| - 1]| && row < |t| - 1 && t[row][col] > 0.0 &&
      (forall r :: 0 <= r < |t| - 1 && t[r][col] > 0.0 ==>
         RowRatio(t[row], col) <= RowRatio(t[r], col)) &&
      (forall r :: 0 <= r < |t| - 1 && t[r][col] > 0.0 ==>
         RowRatio(t[r], col) == RowRatio(t[row], col) ==> slack[row] <= slack[r])
  {
    var col := EnteringColumn(t, phaseOne, p1);
    var ratios := Ratios(t, col);
    assert exists r :: 0 <= r < |ratios| && ratios[r].Finite?;
    LeavingRowMinimal(t, col, slack);
  }

  /** The leaving row for column col has a positive entry, the least ratio,
      and the smallest basic variable among the rows tied with it. */
  lemma LeavingRowMinimal(t: Matrix, col: nat, slack: seq<int>)
    requires |t| >= 2 && |slack| == |t| - 1 && Distinct(slack)
    requires forall i :: 0 <= i < |t| ==> col < |t[i]| && |t[i]| == |t[|t| - 1]|
    requires exists r :: 0 <= r < |t| - 1 && Ratios(t, col)[r].Finite?
    ensures var row := LeavingRow(Ratios(t, col), slack);
      row < |t| - 1 && t[row][col] > 0.0 &&
      (forall r :: 0 <= r < |t| - 1 && t[r][col] > 0.0 ==>
         RowRatio(t[row], col) <= RowRatio(t[r], col)) &&
      (forall r :: 0 <= r < |t| - 1 && t[r][col] > 0.0 ==>
         RowRatio(t[r], col) == RowRatio(t[row], col) ==> slack[row] <= slack[r])
  {
    var ratios := Ratios(t, col);
    var row := LeavingRow(ratios, slack);
    LeavingRowRule(ratios, slack);
    assert ratios[row] == RatioOf(t[row], col);
    forall r | 0 <= r < |t| - 1 && t[r][col] > 0.0
      ensures RowRatio(t[row], col) <= RowRatio(t[r], col)
    {
      assert ratios[r] == RatioOf(t[r], col);
      assert RatioLessEq(ratios[row], ratios[r]);
    }
    forall r | 0 <= r < |t| - 1 && t[r][col] > 0.0 && RowRatio(t[r], col) == RowRatio(t[row], col)
      ensures slack[row] <= slack[r]
    {
      assert ratios[r] == RatioOf(t[r], col);
      assert ratios[r] == ratios[row];
    }
  }


  // ---------------------------------------------------------------------
  // Gauss-Jordan elimination

  /** [x / d for x in r] */
  function DivideRow(r: Row, d: real): (s: Row)
    requires d != 0.0
    ensures |s| == |r|
    ensures forall k :: 0 <= k < |r| ==> s[k] == r[k] / d
  {
    seq(|r|, k requires 0 <= k < |r| => r[k] / d)
  }

  /** [x * f for x in r] */
  function ScaleRow(r: Row, f: real): (s: Row)
    ensures |s| == |r|
    ensures forall k :: 0 <= k < |r| ==> s[k] == r[k] * f
  {
    seq(|r|, k requires 0 <= k < |r| => r[k] * f)
  }

  /** [x - y for x, y in zip(p, q)]: as long as the shorter row. */
  function SubtractRows(p: Row, q: Row): (s: Row)
    ensures |s| == (if |p| <= |q| then |p| else |q|)
    ensures forall k :: 0 <= k < |s| ==> s[k] == p[k] - q[k]
  {
    var len := if |p| <= |q| then |p| else |q|;
    seq(len, k requires 0 <= k < len => p[k] - q[k])
  }

  /** The pivot row divided by its pivot value, the pivot cell then set to 1. */
  function NormalizedPivotRow(r: Row, col: nat): Row
    requires col < |r| && r[col] != 0.0
  {
    DivideRow(r, r[col])[col := 1.0]
  }

  /** Row r minus r[col] times the normalised pivot row, the cell in column
      col then set to 0. */
  function EliminateRow(r: Row, pr: Row, col: nat): Row
    requires col < |r| && col < |pr|
  {
    SubtractRows(r, ScaleRow(pr, r[col]))[col := 0.0]
  }

  predicate PivotPre(t: Matrix, p: Position)
  {
    p.row < |t| && (forall i :: 0 <= i < |t| ==> p.column < |t[i]|) &&
    t[p.row][p.column] != 0.0
  }

  /** The tableau after the elimination around pivot p: the pivot column
      becomes a unit column, 1 in the pivot row and 0 in every other row. */
  function Pivot(t: Matrix, p: Position): (t': Matrix)
    requires PivotPre(t, p)
    ensures |t'| == |t| && forall i :: 0 <= i < |t| ==> p.column < |t'[i]|
    ensures t'[p.row][p.column] == 1.0
    ensures forall i :: 0 <= i < |t| && i != p.row ==> t'[i][p.column] == 0.0
  {
    var pr := NormalizedPivotRow(t[p.row], p.column);
    seq(|t|, i requires 0 <= i < |t| =>
      if i == p.row then pr else EliminateRow(t[i], pr, p.column))
  }

  /** Performs the elimination in place on the rows of `a`; the phase-one row
      takes part only in phase one. */
  method ProcessPivotElement(a: array<Row>, pivot: Position, phaseOne: bool, phaseOneRow: Row)
    returns (newPhaseOneRow: Row)
    requires PivotPre(a[..], pivot)
    requires phaseOne ==> pivot.column < |phaseOneRow|
    modifies a
    ensures PivotPre(old(a[..]), pivot)
    ensures a[..] == Pivot(old(a[..]), pivot)
    ensures newPhaseOneRow ==
      if phaseOne then EliminateRow(phaseOneRow, a[pivot.row], pivot.column) else phaseOneRow
  {
    ghost var original := a[..];
    var col := pivot.column;
    var priMult := a[pivot.row][col];
    a[pivot.row] := DivideRow(a[pivot.row], priMult);
    a[pivot.row] := a[pivot.row][col := 1.0];
    var pr := a[pivot.row];
    assert pr == NormalizedPivotRow(original[pivot.row], col);
    for i := 0 to a.Length
      invariant a[pivot.row] == pr
      invariant forall k :: 0 <= k < i && k != pivot.row ==> a[k] == EliminateRow(original[k], pr, col)
      invariant forall k :: i <= k < a.Length && k != pivot.row ==> a[k] == original[k]
    {
      if i != pivot.row {
        var secMult := a[i][col];
        var priRow := ScaleRow(pr, secMult);
        a[i] := SubtractRows(a[i], priRow);
        a[i] := a[i][col := 0.0];
      }
    }
    assert a[..] == Pivot(original, pivot);
    if phaseOne {
      var secMult := phaseOneRow[col];
      var priRow := ScaleRow(pr, secMult);
      newPhaseOneRow := SubtractRows(phaseOneRow, priRow);
      newPhaseOneRow := newPhaseOneRow[col := 0.0];
    } else {
      newPhaseOneRow := phaseOneRow;
    }
  }

  // ---------------------------------------------------------------------
  // Facts about the elimination

  /** Cell by cell: the pivot row is the old one divided by the pivot value
      and every other row loses that multiple of it which clears the pivot
      column; the forced 1 and 0 agree with exact arithmetic. Rows keep their
      lengths in a rectangular tableau. */
  lemma PivotCells(t: Matrix, p: Position, w: nat)
    requires PivotPre(t, p) && Rectangular(t, |t|, w)
    ensures var t' := Pivot(t, p);
      var piv := t[p.row][p.column];
      Rectangular(t', |t|, w) &&
      t'[p.row][p.column] == 1.0 &&
      (forall i :: 0 <= i < |t| && i != p.row ==> t'[i][p.column] == 0.0) &&
      (forall k :: 0 <= k < w ==> t'[p.row][k] == t[p.row][k] / piv) &&
      (forall i :: 0 <= i < |t| && i != p.row ==>
         forall k :: 0 <= k < w ==> t'[i][k] == t[i][k] - t[i][p.column] * (t[p.row][k] / piv))
  {
    PivotRowCells(t, p, w);
    OtherRowsCells(t, p, w);
  }

  lemma PivotRowCells(t: Matrix, p: Position, w: nat)
    requires PivotPre(t, p) && Rectangular(t, |t|, w)
    ensures var u := Pivot(t, p)[p.row];
      |Pivot(t, p)| == |t| && |u| == w && u[p.column] == 1.0 &&
      forall k :: 0 <= k < w ==> u[k] == t[p.row][k] / t[p.row][p.column]
  {
    NormalizedCells(t[p.row], p.column);
  }

  lemma OtherRowsCells(t: Matrix, p: Position, w: nat)
    requires PivotPre(t, p) && Rectangular(t, |t|, w)
    ensures var t' := Pivot(t, p);
      forall i :: 0 <= i < |t| && i != p.row ==>
        |t'[i]| == w && t'[i][p.column] == 0.0 &&
        forall k :: 0 <= k < w ==> t'[i][k] == t[i][k] - t[i][p.column] * (t[p.row][k] / t[p.row][p.column])
  {
    forall i | 0 <= i < |t| && i != p.row
      ensures var u := Pivot(t, p)[i];
        |u| == w && u[p.column] == 0.0 &&
        forall k :: 0 <= k < w ==> u[k] == t[i][k] - t[i][p.column] * (t[p.row][k] / t[p.row][p.column])
    {
      OtherRowCells(t, p, w, i);
    }
  }

  lemma OtherRowCells(t: Matrix, p: Position, w: nat, i: nat)
    requires PivotPre(t, p) && Rectangular(t, |t|, w) && i < |t| && i != p.row
    ensures var u := Pivot(t, p)[i];
      |u| == w && u[p.column] == 0.0 &&
      forall k :: 0 <= k < w ==> u[k] == t[i][k] - t[i][p.column] * (t[p.row][k] / t[p.row][p.column])
  {
    var pr := NormalizedPivotRow(t[p.row], p.column);
    NormalizedCells(t[p.row], p.column);
    assert Pivot(t, p)[i] == EliminateRow(t[i], pr, p.column);
    EliminateCells(t[i], pr, p.column);
  }

  /** The normalised pivot row holds each cell divided by the pivot value;
      the forced 1 in the pivot cell is that quotient too. */
  lemma NormalizedCells(r: Row, col: nat)
    requires col < |r| && r[col] != 0.0
    ensures var pr := NormalizedPivotRow(r, col);
      |pr| == |r| && pr[col] == 1.0 && forall k :: 0 <= k < |r| ==> pr[k] == r[k] / r[col]
  {
    var pr := NormalizedPivotRow(r, col);
    forall k | 0 <= k < |r|
      ensures pr[k] == r[k] / r[col]
    {
      if k == col {
        DivSelf(r[col]);
      }
    }
  }

  lemma DivSelf(d: real)
    requires d != 0.0
    ensures d / d == 1.0
  {
  }

  /** Against a pivot row with 1 in column col, the eliminated row holds
      each cell minus its column-col multiple of the pivot row; the forced
      0 is that difference too. */
  lemma EliminateCells(r: Row, pr: Row, col: nat)
    requires |r| == |pr| && col < |pr| && pr[col] == 1.0
    ensures var u := EliminateRow(r, pr, col);
      |u| == |r| && u[col] == 0.0 && forall k :: 0 <= k < |r| ==> u[k] == r[k] - r[col] * pr[k]
  {
  }

  /** How the elimination moves every row's residual at a point z: the pivot
      row's residual is divided by the pivot value, and every other row loses
      the same multiple of it that clears the pivot column. */
  lemma PivotResiduals(t: Matrix, p: Position, z: Row)
    requires PivotPre(t, p) && Rectangular(t, |t|, |z| + 1)
    ensures Rectangular(Pivot(t, p), |t|, |z| + 1)
    ensures Residual(Pivot(t, p)[p.row], z) == Residual(t[p.row], z) / t[p.row][p.column]
    ensures forall i :: 0 <= i < |t| && i != p.row ==>
      Residual(Pivot(t, p)[i], z) ==
        Residual(t[i], z) - t[i][p.column] / t[p.row][p.column] * Residual(t[p.row], z)
  {
    PivotCells(t, p, |z| + 1);
    PivotRowResidual(t, p, z);
    forall i | 0 <= i < |t| && i != p.row
      ensures Residual(Pivot(t, p)[i], z) ==
        Residual(t[i], z) - t[i][p.column] / t[p.row][p.column] * Residual(t[p.row], z)
    {
      OtherRowResidual(t, p, z, i);
    }
  }

  lemma PivotRowResidual(t: Matrix, p: Position, z: Row)
    requires PivotPre(t, p) && Rectangular(t, |t|, |z| + 1)
    ensures |Pivot(t, p)[p.row]| == |z| + 1
    ensures Residual(Pivot(t, p)[p.row], z) == Residual(t[p.row], z) / t[p.row][p.column]
  {
    var piv := t[p.row][p.column];
    var u := Pivot(t, p)[p.row];
    var v := t[p.row];
    assert u == NormalizedPivotRow(v, p.column);
    forall k | 0 <= k < |u|
      ensures u[k] == (1.0 / piv) * v[k] + 0.0 * v[k]
    {
      if k == p.column {
        assert u[k] == 1.0;
      } else {
        assert u[k] == v[k] / piv;
      }
    }
    assert LinearCombination(u, v, v, 1.0 / piv, 0.0);
    ResidualLinear(u, v, v, z, 1.0 / piv, 0.0);
    DivisionDistributes(Residual(v, z), piv);
  }
  lemma OtherRowResidual(t: Matrix, p: Position, z: Row, i: nat)
    requires PivotPre(t, p) && Rectangular(t, |t|, |z| + 1) && i < |t| && i != p.row
    ensures |Pivot(t, p)[i]| == |z| + 1
    ensures Residual(Pivot(t, p)[i], z) ==
      Residual(t[i], z) - t[i][p.column] / t[p.row][p.column] * Residual(t[p.row], z)
  {
    PivotOtherRow(t, p, i);
    EliminateRowResidual(t[i], t[p.row], p.column, z);
  }

  lemma PivotOtherRow(t: Matrix, p: Position, i: nat)
    requires PivotPre(t, p) && i < |t| && i != p.row
    ensures Pivot(t, p)[i] == EliminateRow(t[i], NormalizedPivotRow(t[p.row], p.column), p.column)
  {
  }

  /** Eliminating with a normalised pivot row changes the residual of a row
      by the same multiple of the pivot row's residual. */
  lemma EliminateRowResidual(r: Row, v: Row, col: nat, z: Row)
    requires |r| == |z| + 1 && |v| == |z| + 1 && col < |v| && v[col] != 0.0
    ensures |EliminateRow(r, NormalizedPivotRow(v, col), col)| == |z| + 1
    ensures Residual(EliminateRow(r, NormalizedPivotRow(v, col), col), z) ==
      Residual(r, z) - r[col] / v[col] * Residual(v, z)
  {
    EliminatedCells(r, v, col);
    ResidualEliminated(EliminateRow(r, NormalizedPivotRow(v, col), col), r, v, z, r[col], v[col]);
  }

  lemma ResidualEliminated(u: Row, r: Row, v: Row, z: Row, c: real, d: real)
    requires d != 0.0 && |u| == |z| + 1 && LinearCombination(u, r, v, 1.0, -(c / d))
    ensures Residual(u, z) == Residual(r, z) - c / d * Residual(v, z)
  {
    ResidualLinear(u, r, v, z, 1.0, -(c / d));
    NegatedMultiple(Residual(u, z), Residual(r, z), Residual(v, z), c / d);
  }

  /** Every cell of the eliminated row is the old cell minus the pivot
      row's cell times the multiple that clears column col. */
  lemma EliminatedCells(r: Row, v: Row, col: nat)
    requires |r| == |v| && col < |v| && v[col] != 0.0
    ensures LinearCombination(EliminateRow(r, NormalizedPivotRow(v, col), col), r, v, 1.0, -(r[col] / v[col]))
  {
    var pr := NormalizedPivotRow(v, col);
    var u := EliminateRow(r, pr, col);
    forall k | 0 <= k < |r|
      ensures u[k] == 1.0 * r[k] + -(r[col] / v[col]) * v[k]
    {
      if k == col {
        assert u[k] == 0.0;
      } else {
        assert pr[k] == v[k] / v[col];
        assert u[k] == r[k] - pr[k] * r[col];
        QuotientSwap(r[k], v[k], r[col], v[col]);
      }
    }
  }

  /** u is alpha times r plus beta times v, cell by cell. */
  predicate LinearCombination(u: Row, r: Row, v: Row, alpha: real, beta: real)
  {
    |u| == |r| == |v| && forall k :: 0 <= k < |u| ==> u[k] == alpha * r[k] + beta * v[k]
  }

  /** The residual is linear in the row. */
  lemma ResidualLinear(u: Row, r: Row, v: Row, z: Row, alpha: real, beta: real)
    requires |u| == |z| + 1 && LinearCombination(u, r, v, alpha, beta)
    ensures Residual(u, z) == alpha * Residual(r, z) + beta * Residual(v, z)
  {
    var w := |z|;
    DotLinear(u, r, v, z, w, alpha, beta);
    LinearArithmetic(Dot(r, z, w), Dot(v, z, w), r[w], v[w], alpha, beta);
  }

  /** A pivot on a constraint row keeps the solution set of the constraint
      equations, in both directions, and on that set it leaves the value of
      the objective row's equation unchanged. */
  lemma PivotPreservesSolutions(t: Matrix, p: Position, z: Row, n: nat)
    requires PivotPre(t, p) && Rectangular(t, n + 1, |z| + 1) && p.row < n
    ensures Rectangular(Pivot(t, p), n + 1, |z| + 1)
    ensures ConstraintsHold(t, z, n) <==> ConstraintsHold(Pivot(t, p), z, n)
    ensures ConstraintsHold(t, z, n) ==> Residual(Pivot(t, p)[n], z) == Residual(t[n], z)
  {
    PivotCells(t, p, |z| + 1);
    if ConstraintsHold(t, z, n) {
      PivotKeepsSolved(t, p, z, n);
    }
    if ConstraintsHold(Pivot(t, p), z, n) {
      PivotRestoresSolved(t, p, z, n);
    }
  }

  /** A solution of the constraint equations before the pivot solves them
      after it, and the objective row's residual there does not move. */
  lemma PivotKeepsSolved(t: Matrix, p: Position, z: Row, n: nat)
    requires PivotPre(t, p) && Rectangular(t, n + 1, |z| + 1) && p.row < n
    requires ConstraintsHold(t, z, n)
    ensures Rectangular(Pivot(t, p), n + 1, |z| + 1)
    ensures forall i :: 0 <= i <= n ==> Residual(Pivot(t, p)[i], z) == Residual(t[i], z)
  {
    PivotResiduals(t, p, z);
    var piv := t[p.row][p.column];
    forall i | 0 <= i <= n
      ensures Residual(Pivot(t, p)[i], z) == Residual(t[i], z)
    {
      if i == p.row {
        assert Residual(Pivot(t, p)[i], z) == 0.0 / piv;
      } else {
        ShiftByZero(Residual(Pivot(t, p)[i], z), Residual(t[i], z), t[i][p.column] / piv, Residual(t[p.row], z));
      }
    }
  }

  /** A solution of the constraint equations after the pivot solved them
      before it. */
  lemma PivotRestoresSolved(t: Matrix, p: Position, z: Row, n: nat)
    requires PivotPre(t, p) && Rectangular(t, n + 1, |z| + 1) && p.row < n
    requires Rectangular(Pivot(t, p), n + 1, |z| + 1) && ConstraintsHold(Pivot(t, p), z, n)
    ensures ConstraintsHold(t, z, n)
  {
    PivotResiduals(t, p, z);
    var piv := t[p.row][p.column];
    QuotientZero(Residual(t[p.row], z), piv);
    forall i | 0 <= i < n && i != p.row
      ensures Residual(t[i], z) == 0.0
    {
      ShiftByZero(Residual(Pivot(t, p)[i], z), Residual(t[i], z), t[i][p.column] / piv, Residual(t[p.row], z));
    }
  }

  lemma ShiftByZero(after: real, before: real, q: real, r: real)
    requires after == before - q * r && r == 0.0
    ensures after == before
  {
  }

  lemma QuotientZero(x: real, d: real)
    requires d != 0.0 && x / d == 0.0
    ensures x == 0.0
  {
    assert x == (x / d) * d;
  }

  /** A pivot whose row and column are the leaving row and entering column
      keeps the basis isolated once the basis map records the entering
      column for that row; structural basic columns keep their unit cells. */
  lemma PivotKeepsBasis(t: Matrix, basis: seq<int>, n: nat, w: nat, m: nat, p: Position)
    requires Rectangular(t, n + 1, w) && BasisIsolated(t, basis, n, w)
    requires PivotPre(t, p) && p.row < n && p.column < w - 1
    ensures Rectangular(Pivot(t, p), n + 1, w)
    ensures BasisIsolated(Pivot(t, p), basis[p.row := p.column], n, w)
    ensures StructuralBasisUnit(t, basis, n, w, m) ==>
      StructuralBasisUnit(Pivot(t, p), basis[p.row := p.column], n, w, m)
  {
    PivotCells(t, p, w);
    forall r | 0 <= r < n && r != p.row
      ensures basis[r] != p.column
      ensures Pivot(t, p)[r][basis[r]] == t[r][basis[r]]
      ensures forall i :: 0 <= i <= n && i != r ==> Pivot(t, p)[i][basis[r]] == 0.0
    {
      PivotKeepsColumn(t, basis, n, w, p, r);
    }
  }

  /** The column of a basic variable on another row than the pivot's is
      untouched by the pivot: its pivot-row cell is 0. */
  lemma PivotKeepsColumn(t: Matrix, basis: seq<int>, n: nat, w: nat, p: Position, r: nat)
    requires Rectangular(t, n + 1, w) && BasisIsolated(t, basis, n, w)
    requires PivotPre(t, p) && p.row < n && r < n && r != p.row
    ensures basis[r] != p.column
    ensures Pivot(t, p)[r][basis[r]] == t[r][basis[r]]
    ensures forall i :: 0 <= i <= n && i != r ==> Pivot(t, p)[i][basis[r]] == 0.0
  {
    assert t[p.row][basis[r]] == 0.0;
    PivotKeepsZeroColumn(t, p, w, basis[r]);
  }

  /** A column whose pivot-row cell is 0 comes out of the pivot unchanged. */
  lemma PivotKeepsZeroColumn(t: Matrix, p: Position, w: nat, j: nat)
    requires PivotPre(t, p) && Rectangular(t, |t|, w) && j < w && t[p.row][j] == 0.0
    ensures forall i :: 0 <= i < |t| ==> Pivot(t, p)[i][j] == t[i][j]
  {
    var piv := t[p.row][p.column];
    PivotCells(t, p, w);
    assert Pivot(t, p)[p.row][j] == 0.0 / piv;
    forall i | 0 <= i < |t| && i != p.row
      ensures Pivot(t, p)[i][j] == t[i][j]
    {
      assert Pivot(t, p)[i][j] == t[i][j] - t[i][p.column] * (0.0 / piv);
    }
  }

  lemma DivisionDistributes(x: real, d: real)
    requires d != 0.0
    ensures (1.0 / d) * x + 0.0 * x == x / d
  {
  }
  lemma QuotientSwap(x: real, y: real, c: real, d: real)
    requires d != 0.0
    ensures x - y / d * c == 1.0 * x + -(c / d) * y
  {
  }

  lemma NegatedMultiple(ru: real, rr: real, rv: real, q: real)
    requires ru == 1.0 * rr + -q * rv
    ensures ru == rr - q * rv
  {
  }

  lemma LinearArithmetic(dr: real, dv: real, tr: real, tv: real, alpha: real, beta: real)
    ensures (alpha * dr + beta * dv) - (alpha * tr + beta * tv) ==
      alpha * (dr - tr) + beta * (dv - tv)
  {
  }
}
