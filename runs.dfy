/** What a run of the pivot loop guarantees about the answer it ends with:
    pivots never change the solutions of the constraint equations, a bounded
    answer is read off an optimal tableau as the structural part of its
    basic point, and that point solves the original equations with the
    objective value held in the objective row's RHS cell. */
module Runs {
  import opened Tolerance
  import opened Vectors
  import opened Tableau
  import opened Pivoting
  import opened Answers
  import opened Solver

  /** t and t' have the same solutions of their constraint equations, and on
      those solutions their objective equations miss by the same amount. */
  ghost predicate SameSolutions(t: Matrix, t': Matrix, m: nat, n: nat)
    requires Rectangular(t, n + 1, m + n + 1) && Rectangular(t', n + 1, m + n + 1)
  {
    forall z: Row {:trigger ConstraintsHold(t, z, n)} {:trigger ConstraintsHold(t', z, n)} :: |z| == m + n ==>
      (ConstraintsHold(t, z, n) <==> ConstraintsHold(t', z, n)) &&
      (ConstraintsHold(t, z, n) ==> Residual(t'[n], z) == Residual(t[n], z))
  }

  lemma PivotSameSolutions(t: Matrix, p: Position, m: nat, n: nat)
    requires PivotPre(t, p) && Rectangular(t, n + 1, m + n + 1) && p.row < n
    ensures Rectangular(Pivot(t, p), n + 1, m + n + 1) && SameSolutions(t, Pivot(t, p), m, n)
  {
    forall z: Row | |z| == m + n
      ensures ConstraintsHold(t, z, n) <==> ConstraintsHold(Pivot(t, p), z, n)
      ensures ConstraintsHold(t, z, n) ==> Residual(Pivot(t, p)[n], z) == Residual(t[n], z)
    {
      PivotPreservesSolutions(t, p, z, n);
    }
    PivotPreservesSolutions(t, p, Zeros(m + n), n);
  }

  lemma SameSolutionsChain(t1: Matrix, t2: Matrix, t3: Matrix, m: nat, n: nat)
    requires Rectangular(t1, n + 1, m + n + 1) && Rectangular(t2, n + 1, m + n + 1) && Rectangular(t3, n + 1, m + n + 1)
    requires SameSolutions(t1, t2, m, n) && SameSolutions(t2, t3, m, n)
    ensures SameSolutions(t1, t3, m, n)
  {
  }

  /** A finished run ends in a valid state whose tableau has the same
      solutions as the one it started from. */
  lemma {:induction false} RunKeepsSolutions(s: State, m: nat, n: nat, fuel: nat)
    requires Valid(s, m, n)
    ensures var r := Run(s, m, n, fuel);
      r.Finished? ==> Valid(r.last, m, n) && SameSolutions(s.tableau, r.last.tableau, m, n)
    decreases fuel
  {
    if (s.phaseOne || !Optimal(s.tableau)) && fuel > 0 {
      var o := Iterate(s, m, n);
      if o.exit.Proceed? {
        var s1 := EndPhaseOne(s, m, n);
        var p := Select(s1, m, n).pivot;
        SelectedPivot(s1, m, n);
        PivotSameSolutions(s1.tableau, p, m, n);
        var rest: nat := fuel - 1;
        RunProceeds(s, o.state, m, n, fuel, rest);
        RunKeepsSolutions(o.state, m, n, rest);
        var r := Run(o.state, m, n, rest);
        if r.Finished? {
          SameSolutionsChain(s.tableau, o.state.tableau, r.last.tableau, m, n);
        }
      } else {
        RunLeaves(s, m, n, fuel);
      }
    }
  }

  /** A bounded answer comes from a state out of phase one whose tableau is
      optimal, and it is the answer determine_answer reads off that state. */
  lemma {:induction false} RunBounded(s: State, m: nat, n: nat, fuel: nat)
    requires Valid(s, m, n)
    ensures var r := Run(s, m, n, fuel);
      r.Finished? && r.answer.Bounded? ==>
        Valid(r.last, m, n) && !r.last.phaseOne && Optimal(r.last.tableau) &&
        r.answer == AnswerOf(r.last.tableau, r.last.basis, m, n)
    decreases fuel
  {
    if (s.phaseOne || !Optimal(s.tableau)) && fuel > 0 {
      var o := Iterate(s, m, n);
      if o.exit.Proceed? {
        var rest: nat := fuel - 1;
        RunProceeds(s, o.state, m, n, fuel, rest);
        RunBounded(o.state, m, n, rest);
      } else {
        RunLeaves(s, m, n, fuel);
      }
    }
  }

  /** The phase flags over a run: a completed phase one stays completed; a
      run in phase two leaves the flags and the snapshot as they were; and a
      run that starts in phase one completes it unless it ends "unbounded". */
  lemma {:induction false} RunPhases(s: State, m: nat, n: nat, fuel: nat)
    requires Valid(s, m, n)
    ensures var r := Run(s, m, n, fuel);
      r.Finished? ==>
        (s.complete ==> r.last.complete) &&
        (!s.phaseOne ==> !r.last.phaseOne && r.last.complete == s.complete && r.last.snapshot == s.snapshot) &&
        (s.phaseOne ==> r.last.complete || r.answer == Unbounded)
    decreases fuel
  {
    if (s.phaseOne || !Optimal(s.tableau)) && fuel > 0 {
      var o := Iterate(s, m, n);
      if o.exit.Proceed? {
        var rest: nat := fuel - 1;
        RunProceeds(s, o.state, m, n, fuel, rest);
        RunPhases(o.state, m, n, rest);
      } else {
        RunLeaves(s, m, n, fuel);
      }
    }
  }

  /** The snapshot is only ever an answer of determine_answer on a state
      that is not unbounded. */
  lemma {:induction false} RunSnapshot(s: State, m: nat, n: nat, fuel: nat)
    requires Valid(s, m, n)
    ensures var r := Run(s, m, n, fuel);
      r.Finished? && !s.snapshot.Unbounded? ==> !r.last.snapshot.Unbounded?
    decreases fuel
  {
    if (s.phaseOne || !Optimal(s.tableau)) && fuel > 0 {
      var o := Iterate(s, m, n);
      if o.exit.Proceed? {
        var rest: nat := fuel - 1;
        RunProceeds(s, o.state, m, n, fuel, rest);
        RunSnapshot(o.state, m, n, rest);
      } else {
        RunLeaves(s, m, n, fuel);
      }
    }
  }

  /** The end-to-end reading of a bounded answer: it is the structural part
      of the basic point of the final tableau, that point solves the
      constraint equations of the starting tableau, and there the objective
      equation misses by minus the final objective RHS. */
  lemma RunAnswerSolves(s: State, m: nat, n: nat, fuel: nat)
    requires Valid(s, m, n)
    ensures var r := Run(s, m, n, fuel);
      r.Finished? && r.answer.Bounded? ==>
        Valid(r.last, m, n) &&
        var z := BasicPoint(r.last.tableau, r.last.basis, m, n);
        r.answer.x == z[..m] && ConstraintsHold(s.tableau, z, n) &&
        Residual(s.tableau[n], z) == -r.last.tableau[n][m + n]
  {
    var r := Run(s, m, n, fuel);
    RunKeepsSolutions(s, m, n, fuel);
    RunBounded(s, m, n, fuel);
    if r.Finished? && r.answer.Bounded? {
      var t, basis := r.last.tableau, r.last.basis;
      BasicPointSolves(t, basis, m, n);
      AnswerIsBasicPoint(t, basis, m, n);
    }
  }

  /** On an optimal tableau no non-negative solution of the constraint
      equations makes the objective equation miss by less than at the basic
      point, up to EPS times the solution's sum: a negative objective
      coefficient can only be as low as -EPS. */
  lemma OptimalBound(t: Matrix, m: nat, n: nat, z: Row)
    requires Rectangular(t, n + 1, m + n + 1) && Optimal(t)
    requires |z| == m + n && NonNegative(z)
    ensures Residual(t[n], z) >= -t[n][m + n] - EPS * Sum(z, m + n)
  {
    DotAtLeast(t[n], z, m + n, -EPS);
  }

  /** Where a run that found a bounded answer stops: a valid state whose tableau is optimal, has the solutions of the
      starting tableau t0, and yields a bounded answer. */
  ghost predicate OptimalEnd(t0: Matrix, last: State, m: nat, n: nat)
  {
    Valid(last, m, n) && Rectangular(t0, n + 1, m + n + 1) &&
    Optimal(last.tableau) && SameSolutions(t0, last.tableau, m, n) &&
    AnswerOf(last.tableau, last.basis, m, n).Bounded?
  }

  lemma RunOptimalEnd(s: State, m: nat, n: nat, fuel: nat)
    requires Valid(s, m, n)
    ensures var r := Run(s, m, n, fuel);
      r.Finished? && r.answer.Bounded? ==>
        OptimalEnd(s.tableau, r.last, m, n) && r.answer == AnswerOf(r.last.tableau, r.last.basis, m, n)
  {
    RunKeepsSolutions(s, m, n, fuel);
    RunBounded(s, m, n, fuel);
  }

  /** At an optimal end the answer is the structural part of the basic
      point, and every non-negative solution of the starting constraint
      equations misses the starting objective equation by at least as much
      as the basic point does, less EPS times the solution's sum. With the
      objective row -c of a fresh tableau the residual is -c.x, so no
      feasible point improves c.x by more than that margin. */
  lemma OptimalEndBound(t0: Matrix, last: State, m: nat, n: nat, z: Row)
    requires OptimalEnd(t0, last, m, n)
    requires |z| == m + n && NonNegative(z) && ConstraintsHold(t0, z, n)
    ensures var bp := BasicPoint(last.tableau, last.basis, m, n);
      AnswerOf(last.tableau, last.basis, m, n).x == bp[..m] &&
      Residual(t0[n], z) >= Residual(t0[n], bp) - EPS * Sum(z, m + n)
  {
    var t, basis := last.tableau, last.basis;
    BasicPointSolves(t, basis, m, n);
    AnswerIsBasicPoint(t, basis, m, n);
    OptimalBound(t, m, n, z);
  }

  /** The bound of OptimalEndBound over all non-negative solutions at once:
      rx, the starting objective row's residual at the basic point, less
      EPS times a solution's sum, is a floor for its residual there. */
  lemma OptimalEndFloor(t0: Matrix, last: State, m: nat, n: nat) returns (rx: real)
    requires OptimalEnd(t0, last, m, n)
    ensures rx == Residual(t0[n], BasicPoint(last.tableau, last.basis, m, n))
    ensures forall z: Row :: |z| == m + n && NonNegative(z) && ConstraintsHold(t0, z, n) ==>
      Residual(t0[n], z) >= rx - EPS * Sum(z, m + n)
  {
    rx := Residual(t0[n], BasicPoint(last.tableau, last.basis, m, n));
    forall z: Row | |z| == m + n && NonNegative(z) && ConstraintsHold(t0, z, n)
      ensures Residual(t0[n], z) >= rx - EPS * Sum(z, m + n)
    {
      OptimalEndBound(t0, last, m, n, z);
    }
  }
}
