# Simplex method for small linear programs

This project models `simplex_method.py` in Dafny. The program maximises `c . x` subject
to `a x <= b` and `x >= 0`, where there are n constraints over m = |c| variables. It
works on a tableau of n constraint rows plus an objective row. Each row is m + n + 1
cells wide: the structural columns, one slack column per constraint, and the
right-hand side (RHS). It pivots with a greedy entering-column rule and a ratio test
that breaks ties by the smallest basic variable. When the plain attempt gives an answer
that breaks a constraint, it retries with a two-phase tableau.

The model has these modules:

- `Tolerance`: the comparators built on `isclose` with EPS = 1e-4.
- `Vectors`: dot products, sums, minima and maxima over rows.
- `Tableau`: `CreateTableau`, and what a tableau means. Every row is an equation over
  the m + n columns, and the basis map (`slack_rows`) names the column each row owns.
- `Pivoting`: `Position`, `SelectPivotElement` and `ProcessPivotElement`.
- `Answers`: `determine_answer`.
- `Solver`: the loop of `solveTableau`, as a state machine `Run`. The method
  `SolveTableau` is proved equal to it.
- `Runs`: what a run guarantees.
  - Pivots keep the solution set of the constraint equations.
  - A bounded answer is read off an optimal tableau as the structural part of its
    basic point.
- `Controller`: `valid_answer` and `SolveEquation`, with the soundness of what the
  latter returns.

Modelling choices:

- Cells are mathematical reals.
- The tableau that `solveTableau` and `ProcessPivotElement` update in place is an
  `array` of rows.
- The sentinel lists `[-1]` and `[inf]` become the variants `Infeasible` and
  `Unbounded` of `Solution`.
- The source's loop has no bound. The model gives each loop a step budget `fuel`, and
  running out of it is the outcome `Exhausted`.
- The source fails at run time in two places. `min()` of an empty list fails when
  there are no constraints, and indexing past the end fails when `valid_answer` reads a
  `[-1]` snapshot. Both become the outcome `Raises`.

Where the code and its comments disagree, the model follows the code. Some of its
behaviour is easy to miss:

- **Entering column.** The comment above `SelectPivotElement` promises Bland's
  "leftmost negative" column. The code takes the lowest index of the smallest objective
  cell, or of the largest phase-one cell.
- **`determine_answer` scan.** It looks at every one of the m + n columns, slack
  columns included. Its infeasibility scan for a column covers constraint rows
  0 .. n-2, so it never looks at the last constraint row. With a single constraint it
  flags no column at all.
- **`determine_answer` values.** It reads the RHS of a basic row without dividing by
  the pivot cell. The model shows this is the basic solution, because structural basic
  cells stay exactly 1.

## Model

| member | source | states |
|---|---|---|
| Tolerance.IsClose | simplex_method.py:207-208 | true exactly when a and b differ by at most EPS in either direction |
| Tolerance.EpsilonGreaterThan | simplex_method.py:195-196 | true exactly when a exceeds b by more than EPS |
| Tolerance.EpsilonGreaterThanEqualTo | simplex_method.py:198-199 | true exactly when a is at least b - EPS |
| Tolerance.EpsilonLessThan | simplex_method.py:201-202 | true exactly when a falls short of b by more than EPS |
| Tolerance.EpsilonLessThanEqualTo | simplex_method.py:204-205 | true exactly when a is at most b + EPS |
| Tolerance.IsCloseSymmetric | simplex_method.py:207-208 | closeness does not depend on argument order |
| Tolerance.ComparatorsComplementary | simplex_method.py:195-205 | "at least" is the negation of "strictly less", and "at most" of "strictly greater" |
| Tolerance.ComparatorsMirror | simplex_method.py:195-205 | swapping the arguments turns each relation into its mirror image |
| Tableau.PhaseOneAccumulation | simplex_method.py:43-54 | defines the phase-one row after the first k constraints: the m + n + 2 zeros with every flipped row added cell by cell, the sum as long as the shorter row; it is m + n + 2 or m + n + 1 cells long |
| Tableau.InitialTableau | simplex_method.py:41-62 | defines the tableau CreateTableau builds: constraint row i (negated when b[i] < 0 in two-phase mode, slack cell -1) and then the objective row; n + 1 rows of m + n + 1 cells |
| Tableau.CreateTableau | simplex_method.py:41-62 | the rows built one by one form the initial tableau; the phase-one row is the accumulation of the flipped rows |
| Tableau.InitialTableauShape | simplex_method.py:41-62 | the tableau has n + 1 rows of m + n + 1 cells; the last row is -c followed by zeros |
| Tableau.ConstraintRowCells | simplex_method.py:44-59 | every cell of constraint row i: a[i], a slack +-1 on the diagonal and b[i], all negated when the row is flipped |
| Tableau.PhaseOneRhsNonNegative | simplex_method.py:49-58 | in two-phase mode no constraint row has a negative RHS |
| Tableau.PhaseOneRowIsColumnSum | simplex_method.py:43-54 | the phase-one row stays m + n + 2 zeros when no row is flipped; otherwise it is one row wide and each cell is the column sum of the flipped rows |
| Tableau.InitialTableauEncodes | simplex_method.py:41-62 | at any point (x, s), row i misses its equation by +-(a[i].x + s[i] - b[i]), and the objective row evaluates to -c.x |
| Tableau.InitialBasisIsolated | simplex_method.py:50-58 | the slack columns are an isolated basis of the initial tableau (the starting `slack_rows`), with diagonal -1 on flipped rows and 1 elsewhere |
| Tableau.BasisIsolatedDistinct | simplex_method.py:160 | an isolated basis map never names a column twice |
| Pivoting.EnteringColumn | simplex_method.py:73-76 | defines the entering column: the first index of the largest phase-one cell in phase one, else of the smallest objective cell, the last cell excluded; it lies left of that last cell |
| Pivoting.LeavingRow | simplex_method.py:86-95 | defines the leaving row from the ratios: the row of least ratio, or, when several rows tie, the row (looked up in the basis map) of the least basic variable among them; it is a constraint row |
| Pivoting.SelectPivotElement | simplex_method.py:70-98 | the chosen row is a constraint row; the chosen column lies left of the RHS column, except that in phase one a phase-one row one cell wider than the tableau may name the RHS column |
| Pivoting.EnteringColumnIsLeastObjective | simplex_method.py:75-76 | outside phase one the entering column holds the least objective cell (RHS excluded), and no earlier column holds that value |
| Pivoting.EnteringColumnIsGreatestPhaseOne | simplex_method.py:73-74 | in phase one the entering column holds the greatest phase-one cell (last excluded), and no earlier column holds that value |
| Pivoting.NoSolutionIff | simplex_method.py:77-85 | "no solution" is reported if and only if no constraint row has a positive entry in the entering column |
| Pivoting.LeavingRowRule | simplex_method.py:86-95 | with a distinct basis map and a finite ratio, the leaving row has a finite, least ratio and the smallest basic variable among the rows tied with it |
| Pivoting.LeavingRowIsMinRatio | simplex_method.py:77-95 | when a pivot is found, its cell is positive, its ratio is least among rows with a positive entry, and ties go to the smallest basic variable |
| Pivoting.Pivot | simplex_method.py:103-111 | defines the tableau after the elimination: the pivot row divided by the pivot value, every other row minus its pivot-column multiple of that row; the pivot column becomes 1 in the pivot row and 0 elsewhere |
| Pivoting.ProcessPivotElement | simplex_method.py:102-117 | the rows of the array become the pivoted tableau; the phase-one row is eliminated by the new pivot row only in phase one |
| Pivoting.PivotCells | simplex_method.py:103-111 | every cell after the pivot: the pivot row divided by the pivot value, the pivot cell 1, and each other row minus the multiple that clears the pivot column to 0 |
| Pivoting.PivotResiduals | simplex_method.py:103-111 | at any point, the pivot row's residual is divided by the pivot value and every other row's residual loses the same multiple of it |
| Pivoting.PivotPreservesSolutions | simplex_method.py:102-111 | a pivot on a constraint row keeps the solution set of the constraint equations (both directions) and the objective residual on it |
| Pivoting.PivotKeepsBasis | simplex_method.py:176-177 | recording the entering column for the leaving row keeps the basis isolated, and structural basic columns keep their unit cells |
| Pivoting.PivotKeepsZeroColumn | simplex_method.py:106-111 | a column whose pivot-row cell is 0 comes out of the pivot unchanged |
| Answers.Flagged | simplex_method.py:186-189 | defines the columns that make determine_answer return [-1]: not basic, objective cell exactly 0, a positive cell in rows 0 .. n-2; such a column needs at least two constraints |
| Answers.StructuralValue | simplex_method.py:183-191 | defines the value of structural variable i: 0 when no row owns it, else the RHS of the first row of the basis map that owns it |
| Answers.AnswerOf | simplex_method.py:180-192 | the answer is never "unbounded", and a bounded answer has m values |
| Answers.DetermineAnswer | simplex_method.py:180-192 | the column scan with its early return yields the answer of the specification function |
| Answers.BasicPointSolves | simplex_method.py:183-185 | the basic point solves every constraint row, and the objective row there evaluates to minus its RHS |
| Answers.AnswerIsBasicPoint | simplex_method.py:183-191 | a bounded answer is the structural part of the basic point when structural basic cells are 1 |
| Solver.EndPhaseOne | simplex_method.py:164-167 | ending phase one keeps the tableau, basis and phase-one row, and leaves phase one running only while it is not done |
| Solver.SelectedPivot | simplex_method.py:170-176 | a pivot the loop goes on with lies in a constraint row, left of the RHS, on a positive cell |
| Solver.Advance | simplex_method.py:176-177 | one pivot keeps the state invariant (shape, isolated basis, unit structural cells, phase-one row width) |
| Solver.Iterate | simplex_method.py:163-177 | one pass of the loop body keeps the state invariant |
| Solver.IteratePass | simplex_method.py:164-177 | one pass ends phase one (complete, snapshot taken) exactly when it ran and was done; a return is "no solution" exactly when phase one is complete, else "unbounded"; a pass that goes on changes the basis map only at the pivot row, to the pivot column |
| Solver.Run | simplex_method.py:163-178 | defines the loop with at most `fuel` passes: while phase one runs or the objective row has a cell below -EPS, do a pass; leaving by the guard or the break reads the answer off the tableau. A finished run ends valid with a bounded answer of m values |
| Solver.Iteration | simplex_method.py:163-177 | the in-place pass over the array and the loop variables is exactly one step of the specification |
| Solver.SolveTableau | simplex_method.py:159-178 | the in-place loop returns the result of the specification run, and a finished run leaves its final tableau in the array |
| Runs.PivotSameSolutions | simplex_method.py:177 | a pivot on a constraint row keeps the solutions of the constraint equations for every point |
| Runs.RunKeepsSolutions | simplex_method.py:159-178 | a finished run ends in a valid state whose tableau has the same solutions, and the same objective residual on them, as the starting one |
| Runs.RunBounded | simplex_method.py:163-178 | a bounded answer comes from a state out of phase one with an optimal tableau, and it is that state's determine_answer |
| Runs.RunPhases | simplex_method.py:161-175 | a completed phase one stays completed; phase two leaves the flags and the snapshot alone; phase one completes unless the run ends "unbounded" |
| Runs.RunSnapshot | simplex_method.py:162-167 | the phase-one snapshot is never "unbounded" |
| Runs.RunAnswerSolves | simplex_method.py:178 | a bounded answer is the structural part of a point that solves the starting constraint equations, at which the objective row misses by minus the final objective RHS |
| Runs.OptimalBound | simplex_method.py:163 | on an optimal tableau no non-negative solution makes the objective residual smaller than at the basic point by more than EPS times its sum |
| Runs.RunOptimalEnd | simplex_method.py:163-178 | a bounded answer ends a run at an optimal tableau with the starting tableau's solutions |
| Runs.OptimalEndBound | simplex_method.py:163-178 | at such an end every non-negative solution of the starting equations has an objective residual at least the basic point's, less EPS times its sum |
| Runs.OptimalEndFloor | simplex_method.py:163-178 | the bound of OptimalEndBound over all solutions at once |
| Controller.Satisfies | simplex_method.py:149-156 | defines what valid_answer accepts, with its comparators; read arithmetically, every constraint and every bound may be broken by at most EPS, and by no more |
| Controller.ValidAnswer | simplex_method.py:147-157 | the nested loops report an answer invalid if and only if it breaks a constraint or a bound by more than EPS |
| Controller.AnswerCheck | simplex_method.py:147-157 | checking raises exactly on the [-1] snapshot with m >= 2 and a constraint; an answer passes only if it is bounded and satisfies the constraints |
| Controller.ValidAnswerOf | simplex_method.py:136 | checking a snapshot list, sentinel included, gives the specified check |
| Controller.StartValid | simplex_method.py:160-162 | the state solveTableau starts in on a created tableau satisfies the state invariant |
| Controller.Fresh | simplex_method.py:126-127 | the starting state of a run is valid and holds the created tableau |
| Controller.RunFromShape | simplex_method.py:126-135 | a finished run from a created tableau ends valid, with a bounded answer of m values and a snapshot that is not "unbounded" |
| Controller.Solve | simplex_method.py:123-145 | defines what SolveEquation returns: zeros on a trivial problem, the n = 0 case, the first run's answer when it is a sentinel or valid, and otherwise the two-phase attempt; a returned solution has m values |
| Controller.SecondAttempt | simplex_method.py:133-145 | defines the two-phase attempt: check the snapshot (which can raise), return a sentinel or a valid answer, else a valid snapshot, else [-1]; a returned solution has m values |
| Controller.SolveEquation | simplex_method.py:123-145 | the driver returns the outcome of the specification function, through the first attempt, the two-phase attempt and their fallbacks |
| Controller.TwoPhase | simplex_method.py:133-145 | the two-phase attempt returns the outcome of the specification of the second attempt |
| Controller.FeasibleExtended | simplex_method.py:41-62 | a feasible point extended by its slacks is non-negative |
| Controller.FeasibleSolvesTableau | simplex_method.py:41-62 | a feasible point with its slacks solves the created tableau's constraint equations, and the objective row reads -c.y there |
| Controller.ObjectiveAtPoint | simplex_method.py:60-61 | the created objective row reads -c.x at any point whose structural part is x |
| Controller.FeasibleBound | simplex_method.py:123-145 | a floor on the objective residual over tableau solutions bounds c.y of a feasible point |
| Controller.FloorBound | simplex_method.py:123-145 | that bound for every feasible point |
| Controller.EndObjective | simplex_method.py:178 | at an optimal end the created objective row reads -c.x at the basic point, x being the answer |
| Controller.EndNearOptimal | simplex_method.py:178 | the bounded answer at an optimal end is within the tolerance of optimal |
| Controller.RunNearOptimal | simplex_method.py:126-135 | a bounded answer of either attempt's run has m values and no feasible point beats it by more than EPS times its values' and slacks' sum |
| Controller.ZerosSatisfy | simplex_method.py:124-125 | the zero vector passes valid_answer when every bound is at least 0 |
| Controller.TrivialAnswer | simplex_method.py:124-125 | with c <= 0 and b >= 0 the returned zero vector is valid, and no feasible point has c.y above 0 = c.0 |
| Controller.TrivialBound | simplex_method.py:124-125 | with c <= 0, every feasible point at once has c.y <= 0, which is at most EPS times its values' and slacks' sum |
| Controller.TrivialPointBound | simplex_method.py:124-125 | with c <= 0 every feasible point has c.y <= 0 |
| Controller.UnconstrainedAnswer | simplex_method.py:126-127 | without constraints, an optimal created tableau makes the returned zero vector valid and within the tolerance of optimal |
| Controller.SecondAttemptSound | simplex_method.py:133-145 | every solution the two-phase attempt returns has m values, passes valid_answer (unless it is the one-variable answer [-1.0]) and is near-optimal, or is the phase-one snapshot |
| Controller.FirstAttemptSound | simplex_method.py:126-145 | every solution of a non-trivial problem with constraints is sound |
| Controller.FirstAnswerSound | simplex_method.py:127-131 | an answer of the first run that passes valid_answer is sound |
| Controller.SolveSound | simplex_method.py:123-145 | every solution SolveEquation returns has m values, passes valid_answer and is within the tolerance of optimal, unless it is the two-phase snapshot (then only valid) or the one-variable answer [-1.0] |

## Left out

- Reading the problem (`ReadEquation`), printing it (`PrintColumn`) and the main block are input and output, and are not modelled. The unused `itertools` import is not modelled either.
- Floating-point rounding is not modelled. Cells are exact reals, so the model does not capture the rounding noise that EPS guards against.
- The loop of `solveTableau` has no bound in the source, and its greedy entering-column rule can cycle. The model runs each loop for at most `fuel` iterations and reports `Exhausted` when they run out. It does not prove termination.
- `determine_answer` reads the module-level globals `m` and `n`. The model passes them as parameters, with the values `SolveEquation` was given.
- `SelectPivotElement` ignores its parameter `m`, and `solveTableau` ignores `a` and `b`. The model drops these parameters.
- The `else` branch at simplex_method.py:96-97 cannot be reached, because a list index is never `None`. It is not modelled.
- Tableau.WellFormedProblem: the model requires every row of `a` to have |c| cells, and `SolveEquation` requires its `m` to equal |c|. Inputs with ragged rows, which would build ragged tableaux, are not modelled.
- A genuine one-variable answer `[-1.0]` compares equal to the `[-1]` sentinel in the source. The model keeps the two apart as values, but reproduces the source's decision on them: both are returned straight away.
- Controller.SolveSound: the phase-one snapshot that `SolveEquation` can fall back on is shown valid, not near-optimal. The source promises nothing more for it.
- Controller.RunNearOptimal: optimality is proved up to EPS times the sum of a feasible point's values and slacks, not exactly. The source itself accepts an objective cell as non-negative down to -EPS.
- Solution quality under `Raises` and `Exhausted` is not stated. The model only identifies when they happen.
