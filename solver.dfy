/** The pivot loop (solveTableau): a small state machine over the tableau,
    the basis map, the phase-one row and two flags, "phase one running" and
    "phase one complete", plus the answer snapshot taken when phase one
    ends. */
module Solver {
  import opened Tolerance
  import opened Vectors
  import opened Tableau
  import opened Pivoting
  import opened Answers

  /** Everything the loop of solveTableau updates. */
  datatype State = State(
    tableau: Matrix,
    basis: seq<int>,
    phaseOne: bool,
    complete: bool,
    phaseOneRow: Row,
    snapshot: Solution)

  /** How a run ends: the answer and the phase-one snapshot (with the state
      the loop stopped in), or the step budget ran out first. */
  datatype RunResult = Finished(answer: Solution, last: State) | OutOfFuel

  /** Every objective cell but the RHS is at least 0, up to the tolerance. */
  predicate Optimal(t: Matrix)
    requires |t| >= 1
  {
    var objective := t[|t| - 1];
    forall k :: 0 <= k < |objective| - 1 ==> EpsilonGreaterThanEqualTo(objective[k], 0.0)
  }

  /** Every phase-one cell but the last is at most 0, up to the tolerance. */
  predicate PhaseOneDone(p1: Row)
  {
    forall k :: 0 <= k < |p1| - 1 ==> EpsilonLessThanEqualTo(p1[k], 0.0)
  }

  /** The state invariant: n + 1 rows of width m + n + 1 over at least one
      constraint, an isolated basis whose structural columns carry 1 on their
      rows, a phase-one row that is either one tableau row wide or still the
      all-zero row it started as, and a snapshot of m values when bounded. */
  predicate Valid(s: State, m: nat, n: nat)
  {
    n >= 1 &&
    Rectangular(s.tableau, n + 1, m + n + 1) &&
    BasisIsolated(s.tableau, s.basis, n, m + n + 1) &&
    StructuralBasisUnit(s.tableau, s.basis, n, m + n + 1, m) &&
    (|s.phaseOneRow| == m + n + 1 || (|s.phaseOneRow| == m + n + 2 && AllZero(s.phaseOneRow))) &&
    (s.snapshot.Bounded? ==> |s.snapshot.x| == m)
  }

  /** The state solveTableau starts in: the slack basis, phase one not yet
      complete and the snapshot [0] * m. */
  function Start(t: Matrix, m: nat, n: nat, phaseOne: bool, p1: Row): State
  {
    State(t, SlackBasis(m, n), phaseOne, false, p1, Bounded(Zeros(m)))
  }

  /** The loop body's opening: when phase one is running and done, it stops,
      is marked complete and the snapshot is taken. */
  function EndPhaseOne(s: State, m: nat, n: nat): (s': State)
    requires Valid(s, m, n)
    ensures Valid(s', m, n) && s'.tableau == s.tableau && s'.basis == s.basis
    ensures s'.phaseOneRow == s.phaseOneRow
    ensures s'.phaseOne ==> !PhaseOneDone(s'.phaseOneRow)
  {
    if s.phaseOne && PhaseOneDone(s.phaseOneRow) then
      s.(phaseOne := false, complete := true, snapshot := AnswerOf(s.tableau, s.basis, m, n))
    else s
  }

  function Select(s: State, m: nat, n: nat): Selection
    requires Valid(s, m, n)
  {
    SelectPivotElement(s.tableau, s.basis, s.phaseOne, s.phaseOneRow)
  }

  /** When the selection finds a bounding row, its pivot cell is strictly
      positive and lies in a constraint row, left of the RHS column. */
  lemma SelectedPivot(s: State, m: nat, n: nat)
    requires Valid(s, m, n) && (s.phaseOne ==> !PhaseOneDone(s.phaseOneRow))
    requires !Select(s, m, n).noSolution
    ensures var p := Select(s, m, n).pivot;
      PivotPre(s.tableau, p) && p.row < n && p.column < m + n && s.tableau[p.row][p.column] > 0.0
  {
    var t, p1 := s.tableau, s.phaseOneRow;
    BasisIsolatedDistinct(t, s.basis, n, m + n + 1);
    LeavingRowIsMinRatio(t, s.basis, s.phaseOne, p1);
  }

  /** One pivot: the basis map records the entering column for the leaving
      row, the tableau is eliminated around the pivot, and the phase-one row
      follows the elimination only while phase one runs. */
  function Advance(s: State, p: Position, m: nat, n: nat): (s': State)
    requires Valid(s, m, n) && PivotPre(s.tableau, p) && p.row < n && p.column < m + n
    ensures Valid(s', m, n)
  {
    PivotCells(s.tableau, p, m + n + 1);
    PivotKeepsBasis(s.tableau, s.basis, n, m + n + 1, m, p);
    var t' := Pivot(s.tableau, p);
    s.(tableau := t',
       basis := s.basis[p.row := p.column],
       phaseOneRow := if s.phaseOne then EliminateRow(s.phaseOneRow, t'[p.row], p.column) else s.phaseOneRow)
  }

  /** How one pass of the loop body leaves the loop: not at all, by the
      `break` that follows the end of phase one on an optimal tableau, or by
      returning an answer. */
  datatype Exit = Proceed | Break | Return(answer: Solution)

  /** One pass of the loop body: how it exits and the state it leaves. */
  datatype Pass = Pass(exit: Exit, state: State)

  /** One pass of the loop body of solveTableau: end phase one when it is
      done (and break when the tableau is then already optimal), select a
      pivot, return "no solution" or "unbounded" when no row bounds the
      entering column, and otherwise pivot. */
  function Iterate(s: State, m: nat, n: nat): (o: Pass)
    requires Valid(s, m, n)
    ensures Valid(o.state, m, n)
  {
    var s1 := EndPhaseOne(s, m, n);
    if s.phaseOne && !s1.phaseOne && Optimal(s1.tableau) then Pass(Break, s1)
    else
      var sel := Select(s1, m, n);
      if sel.noSolution then Pass(Return(if s1.complete then Infeasible else Unbounded), s1)
      else
        SelectedPivot(s1, m, n);
        Pass(Proceed, Advance(s1, sel.pivot, m, n))
  }

  /** What one pass does to the loop variables. Phase one switches off, is
      marked complete and takes the snapshot from the tableau it finds
      exactly when it was running and done; otherwise the flag "complete"
      and the snapshot stay as they were. A return reports "no solution"
      exactly when phase one is complete, and "unbounded" otherwise. A pass
      that goes on changes the basis map only at the pivot row, which now
      records the pivot column; a pass that leaves changes neither the
      basis map nor the tableau. */
  lemma IteratePass(s: State, m: nat, n: nat)
    requires Valid(s, m, n)
    ensures var o := Iterate(s, m, n);
      var ends := s.phaseOne && PhaseOneDone(s.phaseOneRow);
      (o.state.phaseOne <==> s.phaseOne && !ends) &&
      (ends ==> o.state.complete && o.state.snapshot == AnswerOf(s.tableau, s.basis, m, n)) &&
      (!ends ==> o.state.complete == s.complete && o.state.snapshot == s.snapshot) &&
      (o.exit.Return? ==> (o.exit.answer.Infeasible? <==> o.state.complete) && !o.exit.answer.Bounded?)
    ensures var o := Iterate(s, m, n);
      var p := Select(EndPhaseOne(s, m, n), m, n).pivot;
      (o.exit.Proceed? ==> p.row < n && o.state.basis == s.basis[p.row := p.column]) &&
      (!o.exit.Proceed? ==> o.state.basis == s.basis && o.state.tableau == s.tableau)
  {
  }

  /** The loop of solveTableau with at most `fuel` iterations; leaving the
      loop by its guard or by `break` reads the answer off the tableau. */
  function Run(s: State, m: nat, n: nat, fuel: nat): (r: RunResult)
    requires Valid(s, m, n)
    ensures r.Finished? ==> Valid(r.last, m, n)
    ensures r.Finished? && r.answer.Bounded? ==> |r.answer.x| == m
    decreases fuel
  {
    if !(s.phaseOne || !Optimal(s.tableau)) then Finished(AnswerOf(s.tableau, s.basis, m, n), s)
    else if fuel == 0 then OutOfFuel
    else
      var o := Iterate(s, m, n);
      match o.exit
      case Return(answer) => Finished(answer, o.state)
      case Break => Finished(AnswerOf(o.state.tableau, o.state.basis, m, n), o.state)
      case Proceed => Run(o.state, m, n, fuel - 1)
  }

  /** A pass that proceeds hands the rest of the run to the state it
      reached, with one iteration less. */
  lemma RunProceeds(s: State, next: State, m: nat, n: nat, fuel: nat, rest: nat)
    requires Valid(s, m, n) && (s.phaseOne || !Optimal(s.tableau)) && fuel == rest + 1
    requires Iterate(s, m, n) == Pass(Proceed, next)
    ensures Valid(next, m, n) && Run(s, m, n, fuel) == Run(next, m, n, rest)
  {
    FuelShift(s, m, n, fuel, rest);
  }

  /** Restates a fuel of the form rest + 1, so that unfolding one iteration
      leaves `rest` itself. */
  lemma FuelShift(s: State, m: nat, n: nat, fuel: nat, rest: nat)
    requires Valid(s, m, n) && fuel == rest + 1
    ensures Run(s, m, n, fuel) == Run(s, m, n, rest + 1)
  {
  }

  /** A pass that leaves the loop ends the run. */
  lemma RunLeaves(s: State, m: nat, n: nat, fuel: nat)
    requires Valid(s, m, n) && (s.phaseOne || !Optimal(s.tableau)) && fuel > 0
    requires !Iterate(s, m, n).exit.Proceed?
    ensures var o := Iterate(s, m, n);
      Run(s, m, n, fuel) ==
        if o.exit.Return? then Finished(o.exit.answer, o.state)
        else Finished(AnswerOf(o.state.tableau, o.state.basis, m, n), o.state)
  {
  }

  /** One pass of the loop body of solveTableau on the rows of `tableau` in
      place; the loop's other variables are passed in and handed back. */
  method Iteration(tableau: array<Row>, slackRows: seq<int>, phaseOneOptimization: bool, phaseOneComplete: bool,
                   p1: Row, phaseOneAnswer: Solution, m: nat, n: nat)
    returns (exit: Exit, slackRows': seq<int>, phaseOneOptimization': bool,
             phaseOneComplete': bool, p1': Row, phaseOneAnswer': Solution)
    requires Valid(State(tableau[..], slackRows, phaseOneOptimization, phaseOneComplete, p1, phaseOneAnswer), m, n)
    modifies tableau
    ensures Iterate(State(old(tableau[..]), slackRows, phaseOneOptimization, phaseOneComplete, p1, phaseOneAnswer), m, n)
      == Pass(exit, State(tableau[..], slackRows', phaseOneOptimization', phaseOneComplete', p1', phaseOneAnswer'))
  {
    ghost var s := State(tableau[..], slackRows, phaseOneOptimization, phaseOneComplete, p1, phaseOneAnswer);
    slackRows', phaseOneOptimization', phaseOneComplete', p1', phaseOneAnswer' :=
      slackRows, phaseOneOptimization, phaseOneComplete, p1, phaseOneAnswer;
    if phaseOneOptimization && PhaseOneDone(p1) {
      phaseOneOptimization' := false;
      phaseOneComplete' := true;
      phaseOneAnswer' := DetermineAnswer(tableau[..], slackRows, m, n);
      if Optimal(tableau[..]) {
        exit := Break;
        return;
      }
    }
    ghost var s1 := EndPhaseOne(s, m, n);
    assert s1 == State(tableau[..], slackRows', phaseOneOptimization', phaseOneComplete', p1', phaseOneAnswer');
    var sel := SelectPivotElement(tableau[..], slackRows', phaseOneOptimization', p1');
    if sel.noSolution {
      if phaseOneComplete' {
        exit := Return(Infeasible);
      } else {
        exit := Return(Unbounded);
      }
      return;
    }
    SelectedPivot(s1, m, n);
    slackRows' := slackRows'[sel.pivot.row := sel.pivot.column];
    p1' := ProcessPivotElement(tableau, sel.pivot, phaseOneOptimization', p1');
    exit := Proceed;
  }

  /** Runs the loop on the rows of `tableau` in place, at most `fuel`
      iterations. */
  method SolveTableau(tableau: array<Row>, m: nat, n: nat, phaseOne: bool, phaseOneRow: Row, fuel: nat)
    returns (result: RunResult)
    requires Valid(Start(tableau[..], m, n, phaseOne, phaseOneRow), m, n)
    modifies tableau
    ensures result == Run(Start(old(tableau[..]), m, n, phaseOne, phaseOneRow), m, n, fuel)
    ensures result.Finished? ==> tableau[..] == result.last.tableau
  {
    ghost var expected := Run(Start(tableau[..], m, n, phaseOne, phaseOneRow), m, n, fuel);
    var slackRows := SlackBasis(m, n);
    var phaseOneOptimization := phaseOne;
    var phaseOneComplete := false;
    var phaseOneAnswer := Bounded(Zeros(m));
    var p1 := phaseOneRow;
    var steps := fuel;
    ghost var cur := Start(tableau[..], m, n, phaseOne, phaseOneRow);
    while phaseOneOptimization || !Optimal(tableau[..])
      invariant cur == State(tableau[..], slackRows, phaseOneOptimization, phaseOneComplete, p1, phaseOneAnswer)
      invariant Valid(cur, m, n) && Run(cur, m, n, steps) == expected
      decreases steps
    {
      if steps == 0 {
        return OutOfFuel;
      }
      ghost var before := cur;
      var exit;
      exit, slackRows, phaseOneOptimization, phaseOneComplete, p1, phaseOneAnswer :=
        Iteration(tableau, slackRows, phaseOneOptimization, phaseOneComplete, p1, phaseOneAnswer, m, n);
      cur := State(tableau[..], slackRows, phaseOneOptimization, phaseOneComplete, p1, phaseOneAnswer);
      if exit.Return? {
        RunLeaves(before, m, n, steps);
        return Finished(exit.answer, State(tableau[..], slackRows, phaseOneOptimization, phaseOneComplete, p1, phaseOneAnswer));
      } else if exit.Break? {
        RunLeaves(before, m, n, steps);
        break;
      }
      ghost var taken := steps;
      steps := steps - 1;
      RunProceeds(before, cur, m, n, taken, steps);
    }
    var ans := DetermineAnswer(tableau[..], slackRows, m, n);
    return Finished(ans, State(tableau[..], slackRows, phaseOneOptimization, phaseOneComplete, p1, phaseOneAnswer));
  }
}
