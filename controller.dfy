/** The driver (SolveEquation) and the answer check (valid_answer).

    SolveEquation returns the zero vector straight away when it is
    obviously optimal; otherwise it runs the loop on the plain tableau,
    and when that answer breaks a constraint it runs the two-phase variant
    and falls back to the phase-one snapshot, then to "no solution". */
module Controller {
  import opened Tolerance
  import opened Vectors
  import opened Tableau
  import opened Pivoting
  import opened Answers
  import opened Solver
  import opened Runs

  /** What SolveEquation ends with: an answer list (a solution, or one of
      the [-1] / [inf] sentinels); the step budget of one of the two loops
      running out; or the error the source raises (an empty min() with no
      constraints, an out-of-range index when it checks a [-1] snapshot). */
  datatype Outcome = Answer(solution: Solution) | Exhausted | Raises

  /** What valid_answer returns on a list: whether the list is invalid, or
      that indexing the list raised. */
  datatype Check = Checked(invalid: bool) | CheckRaises

  // ---------------------------------------------------------------------
  // valid_answer

  /** x meets every constraint and every bound x[j] >= 0 up to the
      tolerance, with the comparators valid_answer uses. Read
      arithmetically, every constraint and every bound may be broken by at
      most EPS, and by no more. */
  predicate Satisfies(a: Matrix, b: Row, x: Row, m: nat, n: nat)
    requires |a| == n && |b| == n && (forall i :: 0 <= i < n ==> |a[i]| >= m) && |x| >= m
    ensures Satisfies(a, b, x, m, n) <==>
      (forall i :: 0 <= i < n ==> Dot(a[i], x, m) <= b[i] + EPS) &&
      (forall j :: 0 <= j < |x| ==> x[j] >= -EPS)
  {
    (forall i :: 0 <= i < n ==> !EpsilonGreaterThan(Dot(a[i], x, m), b[i])) &&
    (forall j :: 0 <= j < |x| ==> EpsilonGreaterThanEqualTo(x[j], 0.0))
  }

  /** Sums a[i] . ans over the first m cells row by row, marks the answer
      invalid when a row exceeds its bound by more than EPS, and also when a
      cell is below 0 by more than EPS. */
  method ValidAnswer(ans: Row, a: Matrix, b: Row, m: nat, n: nat) returns (invalid: bool)
    requires |a| == n && |b| == n && (forall i :: 0 <= i < n ==> |a[i]| >= m) && |ans| >= m
    ensures invalid <==> !Satisfies(a, b, ans, m, n)
  {
    invalid := false;
    for i := 0 to n
      invariant invalid <==> exists k :: 0 <= k < i && EpsilonGreaterThan(Dot(a[k], ans, m), b[k])
    {
      var validAns := 0.0;
      for j := 0 to m
        invariant validAns == Dot(a[i], ans, j)
      {
        validAns := validAns + a[i][j] * ans[j];
      }
      if EpsilonGreaterThan(validAns, b[i]) {
        invalid := true;
      }
    }
    if !(forall j :: 0 <= j < |ans| ==> EpsilonGreaterThanEqualTo(ans[j], 0.0)) {
      invalid := true;
    }
  }

  /** valid_answer on the list an answer stands for. The [-1] sentinel is a
      list of one cell: with two or more variables (and a constraint) its
      second cell is read and the source raises; otherwise -1 fails the
      bound check. The [inf] sentinel is never checked. */
  function AnswerCheck(ans: Solution, a: Matrix, b: Row, m: nat, n: nat): (r: Check)
    requires |a| == n && |b| == n && (forall i :: 0 <= i < n ==> |a[i]| >= m)
    requires ans.Bounded? ==> |ans.x| >= m
    requires !ans.Unbounded?
    ensures r.CheckRaises? <==> ans.Infeasible? && m >= 2 && n >= 1
    ensures r.Checked? && !r.invalid ==> ans.Bounded? && Satisfies(a, b, ans.x, m, n)
  {
    match ans
    case Bounded(x) => Checked(!Satisfies(a, b, x, m, n))
    case Infeasible => if m >= 2 && n >= 1 then CheckRaises else Checked(true)
  }

  method ValidAnswerOf(ans: Solution, a: Matrix, b: Row, m: nat, n: nat) returns (check: Check)
    requires |a| == n && |b| == n && (forall i :: 0 <= i < n ==> |a[i]| >= m)
    requires ans.Bounded? ==> |ans.x| >= m
    requires !ans.Unbounded?
    ensures check == AnswerCheck(ans, a, b, m, n)
  {
    match ans
    case Bounded(x) =>
      var invalid := ValidAnswer(x, a, b, m, n);
      check := Checked(invalid);
    case Infeasible =>
      if m >= 2 && n >= 1 {
        check := CheckRaises;
      } else {
        check := Checked(true);
      }
  }

  // ---------------------------------------------------------------------
  // SolveEquation

  /** Every objective coefficient is at most 0 and every bound at least 0,
      so x = 0 is feasible and no feasible point does better. */
  predicate Trivial(b: Row, c: Row)
  {
    (forall i :: 0 <= i < |c| ==> c[i] <= 0.0) && (forall i :: 0 <= i < |b| ==> b[i] >= 0.0)
  }

  /** The answer list compares equal to [-1] or to [inf]; a genuine answer
      [-1.0] of one variable compares equal to [-1] too. */
  predicate Sentinel(ans: Solution)
  {
    !ans.Bounded? || ans.x == [-1.0]
  }

  /** The state solveTableau starts in on the tableau CreateTableau builds
      is a valid one. */
  lemma StartValid(a: Matrix, b: Row, c: Row, n: nat, phaseOne: bool)
    requires WellFormedProblem(a, b, c, n) && n >= 1
    ensures Valid(Start(InitialTableau(a, b, c, n, phaseOne), |c|, n, phaseOne,
                        PhaseOneAccumulation(a, b, c, n, phaseOne, n)), |c|, n)
  {
    InitialBasisIsolated(a, b, c, n, phaseOne);
    PhaseOneRowIsColumnSum(a, b, c, n, phaseOne, n);
  }

  /** The state solveTableau starts in on the tableau CreateTableau builds. */
  function Fresh(a: Matrix, b: Row, c: Row, n: nat, phaseOne: bool): (s: State)
    requires WellFormedProblem(a, b, c, n) && n >= 1
    ensures Valid(s, |c|, n) && s.tableau == InitialTableau(a, b, c, n, phaseOne)
  {
    StartValid(a, b, c, n, phaseOne);
    Start(InitialTableau(a, b, c, n, phaseOne), |c|, n, phaseOne, PhaseOneAccumulation(a, b, c, n, phaseOne, n))
  }

  /** The run of solveTableau on the tableau CreateTableau builds. */
  function RunFrom(a: Matrix, b: Row, c: Row, n: nat, phaseOne: bool, fuel: nat): RunResult
    requires WellFormedProblem(a, b, c, n) && n >= 1
  {
    Run(Fresh(a, b, c, n, phaseOne), |c|, n, fuel)
  }

  /** A finished run from a fresh tableau ends in a valid state with a
      bounded answer of m values and a snapshot that is not "unbounded". */
  lemma RunFromShape(a: Matrix, b: Row, c: Row, n: nat, phaseOne: bool, fuel: nat)
    requires WellFormedProblem(a, b, c, n) && n >= 1
    ensures var r := RunFrom(a, b, c, n, phaseOne, fuel);
      r.Finished? ==>
        Valid(r.last, |c|, n) && (r.answer.Bounded? ==> |r.answer.x| == |c|) && !r.last.snapshot.Unbounded?
  {
    var s := Fresh(a, b, c, n, phaseOne);
    RunKeepsSolutions(s, |c|, n, fuel);
    RunBounded(s, |c|, n, fuel);
    RunSnapshot(s, |c|, n, fuel);
  }

  /** What SolveEquation returns when each loop may run `fuel` iterations. */
  function Solve(a: Matrix, b: Row, c: Row, n: nat, fuel: nat): (o: Outcome)
    requires WellFormedProblem(a, b, c, n)
    ensures o.Answer? && o.solution.Bounded? ==> |o.solution.x| == |c|
  {
    var m := |c|;
    if Trivial(b, c) then Answer(Bounded(Zeros(m)))
    else if n == 0 then
      // No constraint row: the loop is skipped on an optimal tableau and
      // the answer is all zeros; any pivot search takes min() of no ratios.
      if Optimal(InitialTableau(a, b, c, 0, false)) then Answer(Bounded(Zeros(m))) else Raises
    else
      var r := RunFrom(a, b, c, n, false, fuel);
      RunFromShape(a, b, c, n, false, fuel);
      if r.OutOfFuel? then Exhausted
      else if Sentinel(r.answer) || Satisfies(a, b, r.answer.x, m, n) then Answer(r.answer)
      else
        SecondAttempt(a, b, c, n, fuel)
  }

  /** The two-phase attempt: the snapshot is checked first (which can
      raise), then a sentinel is returned as it is, a valid answer is
      returned, and otherwise a valid snapshot, else [-1]. */
  function SecondAttempt(a: Matrix, b: Row, c: Row, n: nat, fuel: nat): (o: Outcome)
    requires WellFormedProblem(a, b, c, n) && n >= 1
    ensures o.Answer? && o.solution.Bounded? ==> |o.solution.x| == |c|
  {
    var m := |c|;
    var r := RunFrom(a, b, c, n, true, fuel);
    if r.OutOfFuel? then Exhausted
    else
      RunFromShape(a, b, c, n, true, fuel);
      match AnswerCheck(r.last.snapshot, a, b, m, n)
      case CheckRaises => Raises
      case Checked(snapshotInvalid) =>
        if Sentinel(r.answer) then Answer(r.answer)
        else if Satisfies(a, b, r.answer.x, m, n) then Answer(r.answer)
        else if !snapshotInvalid then Answer(r.last.snapshot)
        else Answer(Infeasible)
  }

  /** SolveEquation on a problem with n constraints over m = |c| variables,
      each of its two loops allowed `fuel` iterations. The tableau is an
      array of rows that solveTableau updates in place. */
  method SolveEquation(a: Matrix, b: Row, c: Row, n: nat, m: nat, fuel: nat) returns (outcome: Outcome)
    requires WellFormedProblem(a, b, c, n) && m == |c|
    ensures outcome == Solve(a, b, c, n, fuel)
  {
    if (forall i :: 0 <= i < m ==> c[i] <= 0.0) && (forall i :: 0 <= i < n ==> b[i] >= 0.0) {
      return Answer(Bounded(Zeros(m)));
    }
    var rows, p1 := CreateTableau(a, b, c, n, false);
    InitialTableauShape(a, b, c, n, false);
    if n == 0 {
      // solveTableau without constraint rows: an optimal tableau skips the
      // loop and yields m zeros, which valid_answer accepts; otherwise the
      // pivot search raises.
      if Optimal(rows) {
        return Answer(Bounded(Zeros(m)));
      }
      return Raises;
    }
    var tableau := new Row[n + 1](i requires 0 <= i < n + 1 => rows[i]);
    assert tableau[..] == rows;
    StartValid(a, b, c, n, false);
    RunFromShape(a, b, c, n, false, fuel);
    var r := SolveTableau(tableau, m, n, false, p1, fuel);
    if r.OutOfFuel? {
      return Exhausted;
    }
    var ans := r.answer;
    if Sentinel(ans) {
      return Answer(ans);
    }
    var invalid := ValidAnswer(ans.x, a, b, m, n);
    if !invalid {
      return Answer(ans);
    }
    outcome := TwoPhase(a, b, c, n, m, fuel);
  }

  /** The two-phase attempt of SolveEquation, run after the plain attempt
      produced an answer that valid_answer rejects. */
  method TwoPhase(a: Matrix, b: Row, c: Row, n: nat, m: nat, fuel: nat) returns (outcome: Outcome)
    requires WellFormedProblem(a, b, c, n) && m == |c| && n >= 1
    ensures outcome == SecondAttempt(a, b, c, n, fuel)
  {
    var rows, p1 := CreateTableau(a, b, c, n, true);
    InitialTableauShape(a, b, c, n, true);
    var tableau := new Row[n + 1](i requires 0 <= i < n + 1 => rows[i]);
    assert tableau[..] == rows;
    StartValid(a, b, c, n, true);
    RunFromShape(a, b, c, n, true, fuel);
    var r := SolveTableau(tableau, m, n, true, p1, fuel);
    if r.OutOfFuel? {
      return Exhausted;
    }
    var snapshotCheck := ValidAnswerOf(r.last.snapshot, a, b, m, n);
    if snapshotCheck.CheckRaises? {
      return Raises;
    }
    var ans := r.answer;
    if Sentinel(ans) {
      return Answer(ans);
    }
    var invalid := ValidAnswer(ans.x, a, b, m, n);
    if invalid {
      if !snapshotCheck.invalid {
        return Answer(r.last.snapshot);
      }
      return Answer(Infeasible);
    }
    return Answer(ans);
  }

  // ---------------------------------------------------------------------
  // What the answers mean for the problem "maximise c.x, a x <= b, x >= 0"

  /** y meets every constraint and bound exactly. */
  predicate Feasible(a: Matrix, b: Row, c: Row, y: Row, n: nat)
    requires WellFormedProblem(a, b, c, n) && |y| == |c|
  {
    NonNegative(y) && forall i :: 0 <= i < n ==> Dot(a[i], y, |c|) <= b[i]
  }

  /** The slack b - a y of every constraint. */
  function Slack(a: Matrix, b: Row, c: Row, y: Row, n: nat): (s: Row)
    requires WellFormedProblem(a, b, c, n) && |y| == |c|
    ensures |s| == n
    ensures forall i :: 0 <= i < n ==> Dot(a[i], y, |c|) + s[i] == b[i]
  {
    seq(n, i requires 0 <= i < n => b[i] - Dot(a[i], y, |c|))
  }

  /** No feasible point improves c.x on x by more than EPS times the sum of
      its values and slacks. */
  ghost predicate NearOptimal(a: Matrix, b: Row, c: Row, x: Row, n: nat)
    requires WellFormedProblem(a, b, c, n) && |x| == |c|
  {
    forall y :: |y| == |c| && Feasible(a, b, c, y, n) ==>
      Dot(c, y, |c|) <= Dot(c, x, |c|) + EPS * Sum(y + Slack(a, b, c, y, n), |c| + n)
  }

  /** A feasible point extended by its slacks is non-negative. */
  lemma FeasibleExtended(a: Matrix, b: Row, c: Row, n: nat, y: Row)
    requires WellFormedProblem(a, b, c, n) && |y| == |c| && Feasible(a, b, c, y, n)
    ensures var z := y + Slack(a, b, c, y, n);
      |z| == |c| + n && NonNegative(z)
  {
    var s := Slack(a, b, c, y, n);
    assert forall i :: 0 <= i < n ==> s[i] >= 0.0;
  }

  /** A feasible point with its slacks solves the equations of the fresh
      tableau, and the objective row there reads -c.y. */
  lemma FeasibleSolvesTableau(a: Matrix, b: Row, c: Row, n: nat, phaseOne: bool, y: Row)
    requires WellFormedProblem(a, b, c, n) && |y| == |c| && Feasible(a, b, c, y, n)
    ensures var t := InitialTableau(a, b, c, n, phaseOne);
      var z := y + Slack(a, b, c, y, n);
      Rectangular(t, n + 1, |c| + n + 1) && |z| == |c| + n && NonNegative(z) &&
      ConstraintsHold(t, z, n) && Residual(t[n], z) == -Dot(c, y, |c|)
  {
    FeasibleExtended(a, b, c, n, y);
    InitialTableauEncodes(a, b, c, n, phaseOne, y, Slack(a, b, c, y, n));
  }

  /** The objective row of the fresh tableau reads -c.x at any point whose
      structural part is x. */
  lemma ObjectiveAtPoint(a: Matrix, b: Row, c: Row, n: nat, phaseOne: bool, z: Row, x: Row)
    requires WellFormedProblem(a, b, c, n) && |z| == |c| + n && x == z[..|c|]
    ensures Rectangular(InitialTableau(a, b, c, n, phaseOne), n + 1, |c| + n + 1)
    ensures Residual(InitialTableau(a, b, c, n, phaseOne)[n], z) == -Dot(c, x, |c|)
  {
    assert z == x + z[|c|..];
    InitialTableauEncodes(a, b, c, n, phaseOne, x, z[|c|..]);
  }

  /** One feasible point against a floor rx on the fresh objective row's
      residual over the non-negative solutions of the fresh tableau: its
      objective value is at most -rx plus EPS times the sum of its values
      and slacks. */
  lemma FeasibleBound(a: Matrix, b: Row, c: Row, n: nat, phaseOne: bool, y: Row, rx: real)
    requires WellFormedProblem(a, b, c, n) && |y| == |c| && Feasible(a, b, c, y, n)
    requires Rectangular(InitialTableau(a, b, c, n, phaseOne), n + 1, |c| + n + 1)
    requires forall z: Row :: |z| == |c| + n && NonNegative(z) && ConstraintsHold(InitialTableau(a, b, c, n, phaseOne), z, n) ==>
      Residual(InitialTableau(a, b, c, n, phaseOne)[n], z) >= rx - EPS * Sum(z, |c| + n)
    ensures Dot(c, y, |c|) <= -rx + EPS * Sum(y + Slack(a, b, c, y, n), |c| + n)
  {
    FeasibleSolvesTableau(a, b, c, n, phaseOne, y);
  }

  /** FeasibleBound for every feasible point. */
  lemma FloorBound(a: Matrix, b: Row, c: Row, n: nat, phaseOne: bool, rx: real)
    requires WellFormedProblem(a, b, c, n)
    requires Rectangular(InitialTableau(a, b, c, n, phaseOne), n + 1, |c| + n + 1)
    requires forall z: Row :: |z| == |c| + n && NonNegative(z) && ConstraintsHold(InitialTableau(a, b, c, n, phaseOne), z, n) ==>
      Residual(InitialTableau(a, b, c, n, phaseOne)[n], z) >= rx - EPS * Sum(z, |c| + n)
    ensures forall y :: |y| == |c| && Feasible(a, b, c, y, n) ==>
      Dot(c, y, |c|) <= -rx + EPS * Sum(y + Slack(a, b, c, y, n), |c| + n)
  {
    forall y | |y| == |c| && Feasible(a, b, c, y, n)
      ensures Dot(c, y, |c|) <= -rx + EPS * Sum(y + Slack(a, b, c, y, n), |c| + n)
    {
      FeasibleBound(a, b, c, n, phaseOne, y, rx);
    }
  }

  /** At an optimal end, the objective row of the fresh tableau reads -c.x
      at the basic point, x being the answer. */
  lemma EndObjective(a: Matrix, b: Row, c: Row, n: nat, phaseOne: bool, last: State) returns (cx: real)
    requires WellFormedProblem(a, b, c, n)
    requires OptimalEnd(InitialTableau(a, b, c, n, phaseOne), last, |c|, n)
    ensures cx == Dot(c, AnswerOf(last.tableau, last.basis, |c|, n).x, |c|)
    ensures Residual(InitialTableau(a, b, c, n, phaseOne)[n], BasicPoint(last.tableau, last.basis, |c|, n)) == -cx
  {
    cx := Dot(c, AnswerOf(last.tableau, last.basis, |c|, n).x, |c|);
    AnswerIsBasicPoint(last.tableau, last.basis, |c|, n);
    ObjectiveAtPoint(a, b, c, n, phaseOne, BasicPoint(last.tableau, last.basis, |c|, n),
      AnswerOf(last.tableau, last.basis, |c|, n).x);
  }

  /** The bounded answer at an optimal end of a run from a fresh tableau is
      optimal up to the tolerance. */
  lemma EndNearOptimal(a: Matrix, b: Row, c: Row, n: nat, phaseOne: bool, last: State)
    requires WellFormedProblem(a, b, c, n)
    requires OptimalEnd(InitialTableau(a, b, c, n, phaseOne), last, |c|, n)
    ensures var x := AnswerOf(last.tableau, last.basis, |c|, n).x;
      |x| == |c| && NearOptimal(a, b, c, x, n)
  {
    var x := AnswerOf(last.tableau, last.basis, |c|, n).x;
    var rx := OptimalEndFloor(InitialTableau(a, b, c, n, phaseOne), last, |c|, n);
    var cx := EndObjective(a, b, c, n, phaseOne, last);
    FloorBound(a, b, c, n, phaseOne, rx);
  }

  /** A bounded answer of a run from a fresh tableau is optimal up to the
      tolerance. */
  lemma RunNearOptimal(a: Matrix, b: Row, c: Row, n: nat, phaseOne: bool, fuel: nat)
    requires WellFormedProblem(a, b, c, n) && n >= 1
    requires RunFrom(a, b, c, n, phaseOne, fuel).Finished? && RunFrom(a, b, c, n, phaseOne, fuel).answer.Bounded?
    ensures var x := RunFrom(a, b, c, n, phaseOne, fuel).answer.x;
      |x| == |c| && NearOptimal(a, b, c, x, n)
  {
    var s := Fresh(a, b, c, n, phaseOne);
    RunOptimalEnd(s, |c|, n, fuel);
    EndNearOptimal(a, b, c, n, phaseOne, Run(s, |c|, n, fuel).last);
  }

  /** The zero vector passes valid_answer when every bound is at least 0. */
  lemma ZerosSatisfy(a: Matrix, b: Row, c: Row, n: nat)
    requires WellFormedProblem(a, b, c, n) && forall i :: 0 <= i < n ==> b[i] >= 0.0
    ensures Satisfies(a, b, Zeros(|c|), |c|, n)
  {
    forall i | 0 <= i < n
      ensures Dot(a[i], Zeros(|c|), |c|) == 0.0
    {
      DotVanishes(a[i], Zeros(|c|), |c|);
    }
  }

  /** The zero vector answers a problem whose objective coefficients are at
      most 0 and whose bounds are at least 0: it is valid and no feasible
      point does better. */
  lemma TrivialAnswer(a: Matrix, b: Row, c: Row, n: nat)
    requires WellFormedProblem(a, b, c, n) && Trivial(b, c)
    ensures Satisfies(a, b, Zeros(|c|), |c|, n) && NearOptimal(a, b, c, Zeros(|c|), n)
    ensures forall y :: |y| == |c| && Feasible(a, b, c, y, n) ==> Dot(c, y, |c|) <= 0.0
  {
    ZerosSatisfy(a, b, c, n);
    DotVanishes(c, Zeros(|c|), |c|);
    TrivialBound(a, b, c, n);
  }

  /** TrivialPointBound for every feasible point. */
  lemma TrivialBound(a: Matrix, b: Row, c: Row, n: nat)
    requires WellFormedProblem(a, b, c, n) && Trivial(b, c)
    ensures forall y :: |y| == |c| && Feasible(a, b, c, y, n) ==>
      Dot(c, y, |c|) <= 0.0 <= EPS * Sum(y + Slack(a, b, c, y, n), |c| + n)
  {
    forall y | |y| == |c| && Feasible(a, b, c, y, n)
      ensures Dot(c, y, |c|) <= 0.0 <= EPS * Sum(y + Slack(a, b, c, y, n), |c| + n)
    {
      TrivialPointBound(a, b, c, n, y);
    }
  }

  lemma TrivialPointBound(a: Matrix, b: Row, c: Row, n: nat, y: Row)
    requires WellFormedProblem(a, b, c, n) && Trivial(b, c)
    requires |y| == |c| && Feasible(a, b, c, y, n)
    ensures Dot(c, y, |c|) <= 0.0 <= EPS * Sum(y + Slack(a, b, c, y, n), |c| + n)
  {
    FeasibleExtended(a, b, c, n, y);
    DotAtMost(c, y, |c|, 0.0);
    SumNonNegative(y + Slack(a, b, c, y, n), |c| + n);
  }

  /** Without constraints, an optimal fresh tableau means every objective
      coefficient is at most EPS, so the zero vector is valid and within
      the tolerance of optimal. */
  lemma UnconstrainedAnswer(a: Matrix, b: Row, c: Row)
    requires WellFormedProblem(a, b, c, 0) && Optimal(InitialTableau(a, b, c, 0, false))
    ensures Satisfies(a, b, Zeros(|c|), |c|, 0) && NearOptimal(a, b, c, Zeros(|c|), 0)
  {
    var m := |c|;
    InitialTableauShape(a, b, c, 0, false);
    DotVanishes(c, Zeros(m), m);
    forall y | |y| == m && Feasible(a, b, c, y, 0)
      ensures Dot(c, y, m) <= Dot(c, Zeros(m), m) + EPS * Sum(y + Slack(a, b, c, y, 0), m)
    {
      assert y + Slack(a, b, c, y, 0) == y;
      DotAtMost(c, y, m, EPS);
    }
  }

  /** What a solution returned by SolveEquation is worth: it has m values
      and passes valid_answer (unless it is a one-variable [-1.0], which the
      caller takes for the [-1] sentinel); and it is within the tolerance of
      optimal, unless it is the phase-one snapshot of the two-phase run,
      which is only known to be valid. */
  ghost predicate Sound(a: Matrix, b: Row, c: Row, n: nat, fuel: nat, o: Outcome)
    requires WellFormedProblem(a, b, c, n)
  {
    o.Answer? && o.solution.Bounded? ==>
      |o.solution.x| == |c| &&
      (Satisfies(a, b, o.solution.x, |c|, n) || o.solution.x == [-1.0]) &&
      (o.solution.x == [-1.0] || NearOptimal(a, b, c, o.solution.x, n) ||
       (n >= 1 && RunFrom(a, b, c, n, true, fuel).Finished? &&
        o.solution == RunFrom(a, b, c, n, true, fuel).last.snapshot))
  }

  lemma SecondAttemptSound(a: Matrix, b: Row, c: Row, n: nat, fuel: nat)
    requires WellFormedProblem(a, b, c, n) && n >= 1
    ensures Sound(a, b, c, n, fuel, SecondAttempt(a, b, c, n, fuel))
  {
    RunFromShape(a, b, c, n, true, fuel);
    var r := RunFrom(a, b, c, n, true, fuel);
    if r.Finished? && r.answer.Bounded? {
      RunNearOptimal(a, b, c, n, true, fuel);
    }
  }

  lemma FirstAttemptSound(a: Matrix, b: Row, c: Row, n: nat, fuel: nat)
    requires WellFormedProblem(a, b, c, n) && n >= 1 && !Trivial(b, c)
    ensures Sound(a, b, c, n, fuel, Solve(a, b, c, n, fuel))
  {
    var r := RunFrom(a, b, c, n, false, fuel);
    RunFromShape(a, b, c, n, false, fuel);
    if r.Finished? {
      if Sentinel(r.answer) || Satisfies(a, b, r.answer.x, |c|, n) {
        assert Solve(a, b, c, n, fuel) == Answer(r.answer);
        FirstAnswerSound(a, b, c, n, fuel);
      } else {
        assert Solve(a, b, c, n, fuel) == SecondAttempt(a, b, c, n, fuel);
        SecondAttemptSound(a, b, c, n, fuel);
      }
    }
  }

  /** An answer the first run ends with that passes valid_answer (or is a
      sentinel) is sound. */
  lemma FirstAnswerSound(a: Matrix, b: Row, c: Row, n: nat, fuel: nat)
    requires WellFormedProblem(a, b, c, n) && n >= 1
    requires var r := RunFrom(a, b, c, n, false, fuel);
      r.Finished? &&
      (r.answer.Bounded? ==> |r.answer.x| == |c| && (r.answer.x == [-1.0] || Satisfies(a, b, r.answer.x, |c|, n)))
    ensures Sound(a, b, c, n, fuel, Answer(RunFrom(a, b, c, n, false, fuel).answer))
  {
    if RunFrom(a, b, c, n, false, fuel).answer.Bounded? {
      RunNearOptimal(a, b, c, n, false, fuel);
    }
  }

  /** Every solution SolveEquation returns is sound in the sense above. */
  lemma SolveSound(a: Matrix, b: Row, c: Row, n: nat, fuel: nat)
    requires WellFormedProblem(a, b, c, n)
    ensures Sound(a, b, c, n, fuel, Solve(a, b, c, n, fuel))
  {
    if Trivial(b, c) {
      TrivialAnswer(a, b, c, n);
    } else if n == 0 {
      if Optimal(InitialTableau(a, b, c, 0, false)) {
        UnconstrainedAnswer(a, b, c);
      }
    } else {
      FirstAttemptSound(a, b, c, n, fuel);
    }
  }
}
