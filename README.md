# Tableau simplex solver, modelled in Dafny

This project models `SimplexSolver` from the `lp-simplex` repository. It is a tableau
simplex method with its own two-pass ratio test. It maximises `c.x` subject to
`A x <= b` and `x >= 0`. The solver object holds the program `(A, b, c)`, the tableau,
the column labels `entering` and the row labels `departing`, and updates them in place:

- `set_simplex_input` stores the program and builds the initial tableau. Each constraint
  row is `A[i]`, then an identity row of slack columns, then `b[i]`. The objective row is
  `-c` followed by `m + 1` zeros. The columns are labelled `x_1..x_n, s_1..s_m, b` and the
  rows `s_1..s_m`.
- `run_simplex` loops while the objective row has a negative entry before the last
  column.
  - On each pass it chooses the entering column: the most negative objective-row entry,
    first on ties.
  - It chooses the departing row with the solver's two-pass ratio test.
  - It pivots by Gauss-Jordan elimination and relabels the pivot row.
  - It returns `None` when no departing row exists.
  - Otherwise it returns the solution read off the final tableau.

The model has eight modules, one file each:

- `Tableau` (`tableau.dfy`): matrices, labels, the initial tableau, the pivot as pure
  functions, and the unit-column (basis) invariant.
- `PivotRules` (`pivot_rules.dfy`): the termination test, the entering-column scan, the
  solver's ratio test (`DepartingRow`), and a textbook minimum-ratio test (`TextbookRow`)
  with the facts that define each.
- `SimplexRun` (`simplex_run.dfy`): the main loop as a specification function `Run` with a
  pivot budget, and its end states.
- `Equations` and `Optimality` (`equations.dfy`, `optimality.dfy`): the meaning of a
  Solved outcome for the linear program.
  - Pivots preserve the solutions of the constraint equations.
  - The reported `z` bounds `c.y` for every feasible `y`.
  - The reported point attains `z` when `b` is no row label at the end.
- `Feasibility` (`feasibility.dfy`): under the textbook ratio test with `b >= 0`, every
  right-hand side stays nonnegative, and a Solved run reports a true optimum.
- `Solver` (`solver.dfy`): the class `SimplexSolver`, with one method per method of the
  source.
  - The loops and the in-place updates of the fields are those of the source.
  - Each method is proved against the specification functions.
  - `RunSimplex` produces exactly the final state and outcome of `Run`.
- `Instances` (`instances.dfy`): runs on three families of programs, traced pass by pass:
  - the program of the repository's demo and benchmark, scaled by `t > 0`;
  - a degenerate program on which the solver's ratio test goes wrong;
  - an unbounded program.

Numbers are exact `real`s. Labels are the datatype `Name`:
- `X(k)` is `x_k` and `S(k)` is `s_k`;
- `B` is the right-hand-side label `b`;
- `Z` is the objective key `z`.

## Model

| member | source | states |
|---|---|---|
| Solver.SimplexSolver.constructor | SimplexSolver/__init__.py:5-11 | a new solver has an empty program, tableau and label lists |
| Solver.SimplexSolver.RunSimplex | SimplexSolver/__init__.py:13-62 | on a fresh solver, the returned outcome, the final tableau and the final departing labels are exactly those of `Solve(AsWritten, A, b, c, fuel)`; the program and the column labels stay as set up |
| Solver.SimplexSolver.SetSimplexInput | SimplexSolver/__init__.py:64-76 | stores A, b, c; the tableau becomes `InitialTableau(A, b, c)`, the column labels `x_1..x_n, s_1..s_m, b` and the row labels `s_1..s_m` |
| Solver.SimplexSolver.UpdateEnterDepart | SimplexSolver/__init__.py:78-91 | the column labels of a matrix of width w are `ColumnLabels(n, w)`, with n the width of A, and the departing labels are the slack labels among them; nothing else changes |
| Solver.ColumnLabels | SimplexSolver/__init__.py:78-91 | a matrix of width w with n structural columns has w column labels: `x_1..x_n`, then `s_1..s_{w-1-n}`, then `b` when w > n, and `x_1..x_w` when w <= n |
| Solver.LabelsOfWidth | SimplexSolver/__init__.py:78-91 | on the tableau (width n+m+1) the labels are `x_1..x_n, s_1..s_m, b` with `m` slacks departing; on `[A \| b]` (width n+1) they are `x_1..x_n, b` with none departing |
| Solver.SimplexSolver.AddSlackVariables | SimplexSolver/__init__.py:93-99 | each row i becomes the old row, then identity row i, then `b[i]`; the row count and the other fields are unchanged |
| Solver.SimplexSolver.CreateTableau | SimplexSolver/__init__.py:101-110 | the tableau becomes `InitialTableau(a, b, c)`: rows `A[i] + I_i + [b[i]]` and the objective row `-c + [0] * (m + 1)` |
| Solver.SimplexSolver.FindPivot | SimplexSolver/__init__.py:112-116 | returns `EnteringCol` of the tableau and `DepartingRow` for that column |
| Solver.SimplexSolver.Pivot | SimplexSolver/__init__.py:118-129 | the tableau becomes `PivotTableau(old, i, j)` and `departing[i]` becomes `entering[j]`; all else is unchanged |
| Solver.SimplexSolver.GetEnteringVar | SimplexSolver/__init__.py:131-142 | the result is the first position of a minimum of the whole objective row, the right-hand-side entry included |
| Solver.SimplexSolver.GetDepartingVar | SimplexSolver/__init__.py:144-166 | the result is `DepartingRow(tableau, e)`, the two-pass ratio test over every row, the objective row included |
| Solver.SimplexSolver.GetAb | SimplexSolver/__init__.py:168-175 | row i of the result is `A[i] + [b[i]]` |
| Solver.SimplexSolver.ShouldTerminate | SimplexSolver/__init__.py:177-186 | true exactly when no objective-row entry before the last is negative |
| Solver.SimplexSolver.GetCurrentSolution | SimplexSolver/__init__.py:188-200 | the result is `Solution(tableau, entering, departing)` |
| Solver.SimplexSolver.GenerateIdentity | SimplexSolver/__init__.py:202-215 | an n-by-n matrix whose row i is the i-th unit row |
| Tableau.InitialTableau | SimplexSolver/__init__.py:101-110 | the initial tableau has m+1 rows; constraint row i has m + 1 entries more than `A[i]` (m slack columns and `b[i]`), and the objective row has n + m + 1 entries |
| Tableau.InitialTableauShape | SimplexSolver/__init__.py:93-110 | the initial tableau has m+1 rows of n+m+1 entries; row i ends in `b[i]` and the objective row ends in 0 |
| Tableau.InitialRows | SimplexSolver/__init__.py:93-110 | row i is `A[i] + IdentityRow(i, m) + [b[i]]` and the objective row is `Negated(c) + Zeros(m + 1)` |
| Tableau.EnteringNamesDistinct | SimplexSolver/__init__.py:78-91 | the n+m+1 column labels are pairwise distinct |
| Tableau.InitialBasis | SimplexSolver/__init__.py:93-110 | in the initial tableau, the column of each row's label `s_{i+1}` is the i-th unit vector |
| Tableau.PivotTableau | SimplexSolver/__init__.py:118-127 | the pivoted tableau keeps the row count, and every row has the width of the pivot row |
| Tableau.PivotRow | SimplexSolver/__init__.py:121-127 | each pivoted row (the scaled pivot row, or another row minus its column-j multiple of it) has the width of the pivot row |
| Tableau.PivotUnitColumn | SimplexSolver/__init__.py:118-127 | after a pivot on (i, j), column j is the i-th unit vector |
| Tableau.PivotKeepsUnitColumn | SimplexSolver/__init__.py:118-127 | a column that was a unit vector for another row stays that unit vector after the pivot |
| Tableau.PivotKeepsBasis | SimplexSolver/__init__.py:118-129 | with distinct column labels, if every row label names a unit column before the pivot, the same holds after it, with row i relabelled `entering[j]` |
| Tableau.BasisDistinct | SimplexSolver/__init__.py:118-129 | row labels that name unit columns are pairwise distinct |
| PivotRules.IsOptimal | SimplexSolver/__init__.py:177-186 | when the termination test fails, the objective row has a column besides the right-hand side, and the entering column's entry is negative |
| PivotRules.ArgMinFrom | SimplexSolver/__init__.py:134-140 | the scan returns a position of the row: the best so far, or one at or after the scan's start |
| PivotRules.EnteringCol | SimplexSolver/__init__.py:131-142 | the entering column is a position of the objective row, the right-hand-side column included |
| PivotRules.ArgMinFromSpec | SimplexSolver/__init__.py:134-140 | the scan of the objective row finds the first position of its minimum |
| PivotRules.EnteringColSpec | SimplexSolver/__init__.py:131-142 | the entering column holds a value no larger than any entry and smaller than every earlier entry |
| PivotRules.FirstHit | SimplexSolver/__init__.py:150-155 | the first pass returns -1 or a row at or after its start with a nonzero entry and a positive ratio |
| PivotRules.RefineMin | SimplexSolver/__init__.py:157-164 | the second pass returns a row with a nonzero entry: the anchor row, or a later row with a positive entry |
| PivotRules.DepartingRow | SimplexSolver/__init__.py:144-166 | the departing row is -1 or a row of the tableau, the objective row included, with a nonzero entry in the entering column |
| PivotRules.TextbookRow | SimplexSolver/__init__.py:144-166 | the corrected test returns -1 or a constraint row with a positive entry in the entering column |
| PivotRules.FirstHitIsFirst | SimplexSolver/__init__.py:150-155 | no row before the first hit has a nonzero entry and a positive ratio |
| PivotRules.RefineMinSpec | SimplexSolver/__init__.py:157-164 | the second pass returns the earliest row of least ratio among the first hit and the later rows with a positive entry |
| PivotRules.DepartingRowSpec | SimplexSolver/__init__.py:144-166 | the result is -1 exactly when no row has a nonzero entry and a positive ratio; otherwise it is the earliest least-ratio row among the first hit and the later positive-entry rows |
| PivotRules.TextbookRowSpec | SimplexSolver/__init__.py:144-166 | the corrected test returns -1 exactly when no constraint row has a positive entry; otherwise the earliest constraint row of least ratio among those that do |
| PivotRules.ChooseRow | SimplexSolver/__init__.py:144-166 | the chosen row is -1 or has a nonzero entry in the column; under the textbook rule it is a constraint row with a positive entry |
| PivotRules.LeastRatioUnique | SimplexSolver/__init__.py:157-164 | at most one row is the earliest least-ratio eligible row |
| PivotRules.RulesAgreeWithoutDegeneracy | SimplexSolver/__init__.py:144-166 | when every constraint right-hand side is positive, the objective right-hand side is nonnegative and the entering entry is negative, the solver's test and the textbook test choose the same row |
| SimplexRun.Solution | SimplexSolver/__init__.py:188-200 | the keys are every column label except `b`, plus `z`, and `z` maps to the bottom-right entry |
| SimplexRun.Run | SimplexSolver/__init__.py:20-52 | a run keeps the tableau shaped for its labels and keeps its row count |
| SimplexRun.Advance | SimplexSolver/__init__.py:28-52 | one pass, and the run that follows it, keep the tableau shaped for its labels and keep its row count |
| SimplexRun.Solve | SimplexSolver/__init__.py:13-62 | a run of a fresh solver ends with m+1 rows of n+m+1 entries and m row labels |
| SimplexRun.PivotStepShaped | SimplexSolver/__init__.py:118-129 | a pivot chosen by either rule is on a nonzero element and keeps the tableau shaped |
| SimplexRun.RunStops | SimplexSolver/__init__.py:20-34 | the passes that stop: Solved with the current solution when the test holds, FuelExhausted at budget 0, Infeasible when the row is -1, DepartingIndexError when the objective row is chosen |
| SimplexRun.RunPivots | SimplexSolver/__init__.py:28-52 | a pass that finds a constraint row continues the run, one pivot fewer, from the pivoted tableau with that row relabelled |
| SimplexRun.RunHalts | SimplexSolver/__init__.py:20-62 | a run ends Solved exactly when the termination test holds on its final tableau, and the solution is then read off that tableau |
| SimplexRun.RunFails | SimplexSolver/__init__.py:28-52 | Infeasible only when the chosen row is -1, DepartingIndexError only when it is the objective row, both on the final tableau, so no pivot follows the failed choice |
| SimplexRun.RunKeepsBasis | SimplexSolver/__init__.py:118-129 | with distinct column labels, every pivot of a run keeps each row label naming a unit column |
| SimplexRun.SolutionReadsBasis | SimplexSolver/__init__.py:188-200 | when row labels name unit columns, the label of row i reads that row's right-hand side and every other label reads 0 |
| Equations.PivotPreservesEquations | SimplexSolver/__init__.py:118-127 | a pivot on a constraint row keeps exactly the same solutions of the constraint equations and, on them, the same objective-row value |
| Equations.RunPreservesEquations | SimplexSolver/__init__.py:13-62 | the same for every run, however many pivots it makes |
| Equations.InitialRowEquation | SimplexSolver/__init__.py:93-110 | the initial row i at the point (x, s, -1) is `A[i].x + s[i] - b[i]` |
| Equations.InitialBottomEquation | SimplexSolver/__init__.py:101-110 | the initial objective row at the point (x, s, -1) is `-c.x` |
| Optimality.OptimalRowBound | SimplexSolver/__init__.py:177-186 | when the termination test holds, the objective row at any nonnegative point is at least minus its right-hand side |
| Optimality.BasicPointSolves | SimplexSolver/__init__.py:188-200 | with distinct column labels, the point read off a tableau whose row labels name unit columns, `b` not among them, solves every constraint row, and its objective-row value is minus `z` |
| Optimality.SolutionIsBasicPoint | SimplexSolver/__init__.py:188-200 | the point given by a solution's `x` and `s` values is that basic point |
| Optimality.InitialConstraints | SimplexSolver/__init__.py:93-110 | (x, s) solves the initial tableau's equations exactly when `A x + s = b` |
| Optimality.RunValueBound | SimplexSolver/__init__.py:13-62 | when a run ends Solved, `z` bounds the objective-row value of every nonnegative solution of the initial equations |
| Optimality.RunSolvedPoint | SimplexSolver/__init__.py:13-62 | when a run ends Solved and `b` is no row label at the end, the reported point solves the initial equations with value `z` |
| Optimality.SolvedIsUpperBound | SimplexSolver/__init__.py:13-62 | when a solve ends Solved, `c.y <= z` for every feasible y |
| Optimality.SolvedAttainsValue | SimplexSolver/__init__.py:13-62 | when a solve ends Solved (and `b` is no row label), the reported x and s satisfy `A x + s = b` and `c.x = z` |
| Optimality.SolvedIsOptimal | SimplexSolver/__init__.py:13-62 | when in addition the reported x and s are nonnegative, x is feasible and no feasible point has a larger objective |
| Feasibility.EnteringNegative | SimplexSolver/__init__.py:131-142 | when the test fails and the objective right-hand side is nonnegative, the entering entry is negative and not in the right-hand-side column |
| Feasibility.TextbookPivotKeepsRhs | SimplexSolver/__init__.py:118-127 | a pivot on the textbook row of a column whose objective-row entry is negative keeps every right-hand side nonnegative |
| Feasibility.TextbookRunKeepsRhs | SimplexSolver/__init__.py:13-62 | under the textbook test every pivot keeps the right-hand sides nonnegative and `b` out of the row labels, and no run ends in DepartingIndexError |
| Feasibility.SolutionNonnegative | SimplexSolver/__init__.py:188-200 | a solution read off a tableau with nonnegative right-hand sides has no negative value |
| Feasibility.InitialRhsNonnegative | SimplexSolver/__init__.py:93-110 | with b nonnegative the initial right-hand sides are nonnegative |
| Feasibility.TextbookSolvedIsOptimal | SimplexSolver/__init__.py:13-62 | with b nonnegative, under the textbook test no run ends in DepartingIndexError, and a Solved run reports a feasible x of largest objective with `c.x = z` |
| Instances.DemoSolves | simplex_test.py:29-36 | on `A = [[4,1],[-1,1]]`, `b = [8t,3t]`, `c = [3,4]` (the demo at t = 1), two pivots end Solved with `x_1 = t, x_2 = 4t, s = 0, z = 19t` |
| Instances.DegenerateFeasibility | SimplexSolver/__init__.py:150-164 | on those programs `x_1 = 0` is feasible and `x_1 = p` is not |
| Instances.AsWrittenLeavesFeasibleRegion | SimplexSolver/__init__.py:150-164 | on `A = [[1],[1]]`, `b = [0,p]`, `c = [1]` with p > 0, the run ends Solved with `x_1 = p, s_1 = -p, z = p`, and that x is not feasible |
| Instances.TextbookStaysFeasible | SimplexSolver/__init__.py:150-164 | on the same programs the textbook test ends Solved at the feasible optimum `x_1 = 0, z = 0` |
| Instances.DegenerateOptimum | SimplexSolver/__init__.py:150-164 | every feasible point of those programs has objective at most 0 |
| Instances.UnboundedReportedInfeasible | SimplexSolver/__init__.py:31-34 | on `A = [[-1]]`, `b = [q]`, `c = [1]`, both tests end Infeasible (the solver's `None`), although every `x_1 >= 0` is feasible |

## Left out

- Console output and prompts are not modelled: every `enable_msg` branch, `_print_tableau`, `_prompt` and `clear` (`.helpers` is not part of this model).
- The main loop runs under a pivot budget `fuel` and ends `FuelExhausted` when it is spent. The entering rule can cycle on degenerate programs, so the loop is not proved to terminate.
- SetSimplexInput and RunSimplex require a fresh solver (`a == []`). The source appends the rows of A to `self.A`, so a reused solver mixes programs.
- RunSimplex: when the objective row is chosen as departing row, the source pivots on it (line 52) and then raises `IndexError` at `departing[i]` (line 129). The model ends with `DepartingIndexError` before that pivot, so the tableau state at the crash is not modelled. The same index is read first (line 45) when `enable_msg` is set.
- Pivot: requires `i < |departing|`, so it is never called on the objective row; the source's pivot there, which updates the tableau before it raises `IndexError`, is not modelled.
- WellFormedProgram (required by SetSimplexInput and RunSimplex): it excludes m = 0, where the source raises `IndexError` (`get_Ab` returns `[]` at line 73 and `update_enter_depart` reads `matrix[0]` at line 83). It also requires `|b| == |A|` and every row of `A` of width `|c|`. The source checks neither; it builds a ragged tableau or raises `IndexError`, and the model leaves these inputs to the caller.
- Python's `/` on ints and floats is modelled as exact real division; rounding is not modelled. A zero divisor cannot occur: every division is guarded by a nonzero test, or is by a pivot element that is nonzero.
- Labels are the datatype `Name` rather than the strings `"x_k"`, `"s_k"`, `"b"`, `"z"`. Solutions are `map<Name, real>`.
- `RunSimplex` returns `Solved(solution)` where the source returns the dictionary, and `Infeasible` where it returns `None`.
- simplex_test.py (timing, SciPy comparison, CSV output) and app.py (console demo) are not modelled. Their program is the test vector of `Instances.DemoSolves`.

## Findings

| source | as written | input that shows it | evidently intended | confidence | as-written member | corrected member |
|---|---|---|---|---|---|---|
| SimplexSolver/__init__.py:150-164 | The first pass of the ratio test anchors on the first row with `rhs / entry > 0`. A row with right-hand side 0 and a positive entry has ratio 0, so it is skipped. The second pass only looks at rows after the anchor, so a later row with a larger ratio is chosen, and the pivot makes the skipped row's right-hand side negative. | `A = [[1],[1]]`, `b = [0, p]`, `c = [1]` with p > 0: the solver returns `x_1 = p`, `s_1 = -p`, `z = p`, yet `x_1 <= 0` is a constraint and the optimum is 0. | The minimum-ratio test over the constraint rows with a positive entry, ties to the first. It chooses row 0, and with b >= 0 every Solved run is a feasible optimum. The two tests agree whenever every constraint right-hand side is positive (`PivotRules.RulesAgreeWithoutDegeneracy`). | high (not executed) | Instances.AsWrittenLeavesFeasibleRegion | Feasibility.TextbookSolvedIsOptimal |
