/**
 * Runs of the solver on small families of programs, evaluated pass by pass: a
 * program the solver solves in two pivots, a degenerate one on which its ratio
 * test leaves the feasible region while the textbook test does not, and an
 * unbounded one it reports as having no pivot. Each family has a free
 * right-hand side, so every statement covers infinitely many programs, and a
 * free pivot budget.
 */
module Instances {
  import opened Tableau
  import opened PivotRules
  import opened SimplexRun
  import opened Equations
  import opened Optimality

  // ---------------------------------------------------------------------------
  // maximise 3 x_1 + 4 x_2 subject to 4 x_1 + x_2 <= 8t, -x_1 + x_2 <= 3t, x >= 0

  const DemoA: Matrix := [[4.0, 1.0], [-1.0, 1.0]]
  const DemoC: seq<real> := [3.0, 4.0]
  const DemoNames: seq<Name> := [X(1), X(2), S(1), S(2), B]

  function DemoB(t: real): seq<real> {
    [8.0 * t, 3.0 * t]
  }

  /** The initial tableau. */
  function DemoInitial(t: real): Matrix {
    [[4.0, 1.0, 1.0, 0.0, 8.0 * t], [-1.0, 1.0, 0.0, 1.0, 3.0 * t], [-3.0, -4.0, 0.0, 0.0, 0.0]]
  }

  /** The tableau after the first pivot. */
  function DemoMiddle(t: real): Matrix {
    [[5.0, 0.0, 1.0, -1.0, 5.0 * t], [-1.0, 1.0, 0.0, 1.0, 3.0 * t], [-7.0, 0.0, 0.0, 4.0, 12.0 * t]]
  }

  /** The tableau after the second pivot. */
  function DemoFinal(t: real): Matrix {
    [[1.0, 0.0, 0.2, -0.2, t], [0.0, 1.0, 0.2, 0.8, 4.0 * t], [0.0, 0.0, 1.4, 2.6, 19.0 * t]]
  }

  lemma DemoStart(t: real)
    ensures WellFormedProgram(DemoA, DemoB(t), DemoC)
    ensures InitialTableau(DemoA, DemoB(t), DemoC) == DemoInitial(t)
    ensures EnteringNames(2, 2) == DemoNames && SlackNames(2) == [S(1), S(2)]
  {
    var b := DemoB(t);
    InitialRows(DemoA, b, DemoC);
    assert IdentityRow(0, 2) == [1.0, 0.0] && IdentityRow(1, 2) == [0.0, 1.0];
    assert Negated(DemoC) == [-3.0, -4.0] && Zeros(3) == [0.0, 0.0, 0.0];
    var T := InitialTableau(DemoA, b, DemoC);
    assert T[0] == DemoInitial(t)[0];
    assert T[1] == DemoInitial(t)[1];
    assert T[2] == DemoInitial(t)[2];
  }

  /** First pass: x_2 enters (-4 is the most negative entry) on row 1 (ratio 3t beats 8t). */
  lemma DemoFirstChoice(t: real)
    requires t > 0.0
    ensures !IsOptimal(DemoInitial(t)) && EnteringCol(DemoInitial(t)) == 1 && DepartingRow(DemoInitial(t), 1) == 1
  {
    var T0 := DemoInitial(t);
    assert Bottom(T0)[0] < 0.0;
    assert ArgMinFrom(Bottom(T0), 1, 2) == 1;
    assert Ratio(T0, 1, 0) == 8.0 * t && Ratio(T0, 1, 1) == 3.0 * t;
    assert FirstHit(T0, 1, 0) == 0;
    assert RefineMin(T0, 1, 1, 2) == 1;
  }

  lemma DemoFirstPivot(t: real)
    ensures PivotAt(DemoInitial(t), 1, 1) && PivotTableau(DemoInitial(t), 1, 1) == DemoMiddle(t)
  {
    var T0 := DemoInitial(t);
    var T1 := PivotTableau(T0, 1, 1);
    var pr := ScaleRow(T0[1], 1.0);
    assert pr == T0[1];
    assert T1[0] == Eliminate(T0[0], 1.0, pr) == DemoMiddle(t)[0];
    assert T1[1] == pr;
    assert T1[2] == Eliminate(T0[2], -4.0, pr) == DemoMiddle(t)[2];
  }

  /** Second pass: x_1 enters (-7) on row 0, the only row with a positive entry. */
  lemma DemoSecondChoice(t: real)
    requires t > 0.0
    ensures !IsOptimal(DemoMiddle(t))
    ensures EnteringCol(DemoMiddle(t)) == 0
    ensures DepartingRow(DemoMiddle(t), 0) == 0
  {
    var T1 := DemoMiddle(t);
    assert Bottom(T1)[0] < 0.0;
    var row := Bottom(T1);
    assert row == [-7.0, 0.0, 0.0, 4.0, 12.0 * t];
    assert ArgMinFrom(row, 0, 4) == 0;
    assert ArgMinFrom(row, 0, 3) == 0;
    assert ArgMinFrom(row, 0, 2) == 0;
    assert ArgMinFrom(row, 0, 1) == 0;
    assert Ratio(T1, 0, 0) == t;
    assert FirstHit(T1, 0, 0) == 0;
    assert RefineMin(T1, 0, 0, 2) == 0;
  }

  lemma DemoSecondPivot(t: real)
    ensures PivotAt(DemoMiddle(t), 0, 0) && PivotTableau(DemoMiddle(t), 0, 0) == DemoFinal(t)
    ensures IsOptimal(DemoFinal(t))
  {
    var T1 := DemoMiddle(t);
    var T2 := PivotTableau(T1, 0, 0);
    var pr := ScaleRow(T1[0], 5.0);
    assert pr == DemoFinal(t)[0];
    assert T2[0] == pr;
    assert T2[1] == Eliminate(T1[1], -1.0, pr) == DemoFinal(t)[1];
    assert T2[2] == Eliminate(T1[2], -7.0, pr) == DemoFinal(t)[2];
  }

  /** The solution read off the final tableau. */
  lemma DemoReading(t: real)
    ensures Shaped(DemoFinal(t), DemoNames, [X(1), X(2)])
    ensures Solution(DemoFinal(t), DemoNames, [X(1), X(2)]) ==
      map[X(1) := t, X(2) := 4.0 * t, S(1) := 0.0, S(2) := 0.0, Z := 19.0 * t]
  {
    var dep := [X(1), X(2)];
    assert IndexOf(dep, X(1)) == 0 && IndexOf(dep, X(2)) == 1;
    assert Reported(DemoNames) == {X(1), X(2), S(1), S(2), Z};
  }

  /** The first pass of the run pivots to the middle tableau, with x_2 basic in row 1. */
  lemma DemoFirstPass(t: real, fuel: nat)
    requires t > 0.0 && fuel >= 1
    ensures WellFormedProgram(DemoA, DemoB(t), DemoC) && Shaped(DemoMiddle(t), DemoNames, [S(1), X(2)])
    ensures Solve(AsWritten, DemoA, DemoB(t), DemoC, fuel) == Run(AsWritten, DemoMiddle(t), DemoNames, [S(1), X(2)], fuel - 1)
  {
    DemoStart(t);
    DemoFirstChoice(t);
    DemoFirstPivot(t);
    var names := DemoNames;
    assert [S(1), S(2)][1 := names[1]] == [S(1), X(2)];
    RunPivots(AsWritten, DemoInitial(t), names, [S(1), S(2)], fuel, 1, 1, DemoMiddle(t), [S(1), X(2)], fuel - 1);
  }

  /**
   * The second pass pivots to the final tableau, with x_1 basic in row 0, and
   * the third pass stops there.
   */
  lemma DemoSecondPass(t: real, fuel: nat)
    requires t > 0.0 && fuel >= 1
    ensures Shaped(DemoMiddle(t), DemoNames, [S(1), X(2)]) && Shaped(DemoFinal(t), DemoNames, [X(1), X(2)])
    ensures Run(AsWritten, DemoMiddle(t), DemoNames, [S(1), X(2)], fuel) ==
      Halt(DemoFinal(t), [X(1), X(2)], Solved(Solution(DemoFinal(t), DemoNames, [X(1), X(2)])))
  {
    DemoSecondChoice(t);
    DemoSecondPivot(t);
    var names := DemoNames;
    assert [S(1), X(2)][0 := names[0]] == [X(1), X(2)];
    RunPivots(AsWritten, DemoMiddle(t), names, [S(1), X(2)], fuel, 0, 0, DemoFinal(t), [X(1), X(2)], fuel - 1);
    RunStops(AsWritten, DemoFinal(t), names, [X(1), X(2)], fuel - 1);
  }

  /**
   * With a budget of at least two pivots the run ends Solved with x_1 = t,
   * x_2 = 4t, both slacks 0 and z = 19t.
   */
  lemma DemoSolves(t: real, fuel: nat)
    requires t > 0.0 && fuel >= 2
    ensures WellFormedProgram(DemoA, DemoB(t), DemoC)
    ensures Solve(AsWritten, DemoA, DemoB(t), DemoC, fuel).outcome ==
      Solved(map[X(1) := t, X(2) := 4.0 * t, S(1) := 0.0, S(2) := 0.0, Z := 19.0 * t])
  {
    var rest: nat := fuel - 1;
    DemoFirstPass(t, fuel);
    DemoSecondPass(t, rest);
    DemoReading(t);
    var final := DemoFinal(t);
    assert Solve(AsWritten, DemoA, DemoB(t), DemoC, fuel) ==
      Halt(final, [X(1), X(2)], Solved(Solution(final, DemoNames, [X(1), X(2)])));
  }

  // ---------------------------------------------------------------------------
  // maximise x_1 subject to x_1 <= 0, x_1 <= p, x_1 >= 0 (a degenerate vertex)

  const DegenerateA: Matrix := [[1.0], [1.0]]
  const DegenerateC: seq<real> := [1.0]
  const DegenerateNames: seq<Name> := [X(1), S(1), S(2), B]

  function DegenerateB(p: real): seq<real> {
    [0.0, p]
  }

  /** The initial tableau. */
  function DegenerateInitial(p: real): Matrix {
    [[1.0, 1.0, 0.0, 0.0], [1.0, 0.0, 1.0, p], [-1.0, 0.0, 0.0, 0.0]]
  }

  /** The tableau after the solver's pivot on row 1: row 0 has right-hand side -p. */
  function DegenerateAsWritten(p: real): Matrix {
    [[0.0, 1.0, -1.0, -p], [1.0, 0.0, 1.0, p], [0.0, 0.0, 1.0, p]]
  }

  /** The tableau after the textbook pivot on row 0. */
  function DegenerateTextbook(p: real): Matrix {
    [[1.0, 1.0, 0.0, 0.0], [0.0, -1.0, 1.0, p], [0.0, 1.0, 0.0, 0.0]]
  }

  lemma DegenerateStart(p: real)
    ensures WellFormedProgram(DegenerateA, DegenerateB(p), DegenerateC)
    ensures InitialTableau(DegenerateA, DegenerateB(p), DegenerateC) == DegenerateInitial(p)
    ensures EnteringNames(1, 2) == DegenerateNames && SlackNames(2) == [S(1), S(2)]
  {
    var b := DegenerateB(p);
    InitialRows(DegenerateA, b, DegenerateC);
    assert IdentityRow(0, 2) == [1.0, 0.0] && IdentityRow(1, 2) == [0.0, 1.0];
    assert Negated(DegenerateC) == [-1.0] && Zeros(3) == [0.0, 0.0, 0.0];
    var T := InitialTableau(DegenerateA, b, DegenerateC);
    assert T[0] == DegenerateInitial(p)[0];
    assert T[1] == DegenerateInitial(p)[1];
    assert T[2] == DegenerateInitial(p)[2];
  }

  /** Every feasible point of the degenerate program has objective value at most 0. */
  lemma DegenerateOptimum(p: real, y: seq<real>)
    requires Feasible(DegenerateA, DegenerateB(p), DegenerateC, y)
    ensures Dot(DegenerateC, y) <= 0.0
  {
    assert DegenerateA[0] == DegenerateC;
  }

  /** x_1 = 0 is feasible, and x_1 = p is not, since x_1 <= 0 is a constraint. */
  lemma DegenerateFeasibility(p: real)
    requires p > 0.0
    ensures Feasible(DegenerateA, DegenerateB(p), DegenerateC, [0.0])
    ensures !Feasible(DegenerateA, DegenerateB(p), DegenerateC, [p])
  {
    assert Dot(DegenerateA[0], [p]) == p by {
      assert DotFrom(DegenerateA[0], [p], 1) == 0.0;
    }
    assert Dot(DegenerateA[0], [0.0]) == 0.0 && Dot(DegenerateA[1], [0.0]) == 0.0 by {
      assert DotFrom(DegenerateA[0], [0.0], 1) == 0.0;
    }
  }

  /**
   * x_1 enters; the solver's first pass skips row 0, whose ratio is 0, and both
   * passes settle on row 1, while the textbook test picks row 0.
   */
  lemma DegenerateChoice(p: real)
    requires p > 0.0
    ensures !IsOptimal(DegenerateInitial(p)) && EnteringCol(DegenerateInitial(p)) == 0
    ensures DepartingRow(DegenerateInitial(p), 0) == 1 && TextbookRow(DegenerateInitial(p), 0) == 0
  {
    var T0 := DegenerateInitial(p);
    assert Bottom(T0)[0] < 0.0;
    assert Ratio(T0, 0, 0) == 0.0 && Ratio(T0, 0, 1) == p;
    assert FirstHit(T0, 0, 0) == 1;
    assert LeastRatioFrom(T0, 0, 0, 2) == 0;
    assert LeastRatioFrom(T0, 0, 0, 1) == 0;
  }

  lemma DegenerateAsWrittenPivot(p: real)
    ensures PivotAt(DegenerateInitial(p), 1, 0) && PivotTableau(DegenerateInitial(p), 1, 0) == DegenerateAsWritten(p)
    ensures IsOptimal(DegenerateAsWritten(p))
  {
    var T0 := DegenerateInitial(p);
    var T1 := PivotTableau(T0, 1, 0);
    var pr := ScaleRow(T0[1], 1.0);
    assert pr == T0[1];
    assert T1[0] == Eliminate(T0[0], 1.0, pr) == DegenerateAsWritten(p)[0];
    assert T1[1] == pr;
    assert T1[2] == Eliminate(T0[2], -1.0, pr) == DegenerateAsWritten(p)[2];
  }

  lemma DegenerateTextbookPivot(p: real)
    ensures PivotAt(DegenerateInitial(p), 0, 0) && PivotTableau(DegenerateInitial(p), 0, 0) == DegenerateTextbook(p)
    ensures IsOptimal(DegenerateTextbook(p))
  {
    var T0 := DegenerateInitial(p);
    var T1 := PivotTableau(T0, 0, 0);
    var pr := ScaleRow(T0[0], 1.0);
    assert pr == T0[0];
    assert T1[0] == pr;
    assert T1[1] == Eliminate(T0[1], 1.0, pr) == DegenerateTextbook(p)[1];
    assert T1[2] == Eliminate(T0[2], -1.0, pr) == DegenerateTextbook(p)[2];
  }

  /** The solution the solver reads off its final tableau. */
  lemma DegenerateAsWrittenReading(p: real)
    ensures Shaped(DegenerateAsWritten(p), DegenerateNames, [S(1), X(1)])
    ensures Solution(DegenerateAsWritten(p), DegenerateNames, [S(1), X(1)]) ==
      map[X(1) := p, S(1) := -p, S(2) := 0.0, Z := p]
  {
    var dep := [S(1), X(1)];
    assert IndexOf(dep, X(1)) == 1 && IndexOf(dep, S(1)) == 0;
    assert Reported(DegenerateNames) == {X(1), S(1), S(2), Z};
  }

  lemma DegenerateTextbookReading(p: real)
    ensures Shaped(DegenerateTextbook(p), DegenerateNames, [X(1), S(2)])
    ensures Solution(DegenerateTextbook(p), DegenerateNames, [X(1), S(2)]) ==
      map[X(1) := 0.0, S(1) := 0.0, S(2) := p, Z := 0.0]
  {
    var dep := [X(1), S(2)];
    assert IndexOf(dep, X(1)) == 0 && IndexOf(dep, S(2)) == 1;
    assert Reported(DegenerateNames) == {X(1), S(1), S(2), Z};
  }

  /**
   * The solver's ratio test pivots on row 1 and the run ends Solved with
   * x_1 = p and s_1 = -p, although x_1 <= 0 is a constraint, and reports z = p,
   * above every feasible objective value.
   */
  lemma AsWrittenLeavesFeasibleRegion(p: real, fuel: nat)
    requires p > 0.0 && fuel >= 1
    ensures WellFormedProgram(DegenerateA, DegenerateB(p), DegenerateC)
    ensures var h := Solve(AsWritten, DegenerateA, DegenerateB(p), DegenerateC, fuel);
      && h.outcome == Solved(map[X(1) := p, S(1) := -p, S(2) := 0.0, Z := p])
      && !Feasible(DegenerateA, DegenerateB(p), DegenerateC, StructuralValues(h.outcome.solution, 1))
  {
    DegenerateStart(p);
    DegenerateChoice(p);
    DegenerateAsWrittenPivot(p);
    DegenerateAsWrittenReading(p);
    var names := DegenerateNames;
    assert [S(1), S(2)][1 := names[0]] == [S(1), X(1)];
    RunPivots(AsWritten, DegenerateInitial(p), names, [S(1), S(2)], fuel, 0, 1, DegenerateAsWritten(p), [S(1), X(1)], fuel - 1);
    RunStops(AsWritten, DegenerateAsWritten(p), names, [S(1), X(1)], fuel - 1);
    var sol := map[X(1) := p, S(1) := -p, S(2) := 0.0, Z := p];
    assert StructuralValues(sol, 1) == [p];
    DegenerateFeasibility(p);
  }

  /**
   * On the same programs the textbook test pivots on row 0, the first row of
   * least ratio, and the run ends Solved at the feasible optimum x_1 = 0, z = 0.
   */
  lemma TextbookStaysFeasible(p: real, fuel: nat)
    requires p > 0.0 && fuel >= 1
    ensures WellFormedProgram(DegenerateA, DegenerateB(p), DegenerateC)
    ensures var h := Solve(Textbook, DegenerateA, DegenerateB(p), DegenerateC, fuel);
      && h.outcome == Solved(map[X(1) := 0.0, S(1) := 0.0, S(2) := p, Z := 0.0])
      && Feasible(DegenerateA, DegenerateB(p), DegenerateC, StructuralValues(h.outcome.solution, 1))
  {
    DegenerateStart(p);
    DegenerateChoice(p);
    DegenerateTextbookPivot(p);
    DegenerateTextbookReading(p);
    var names := DegenerateNames;
    assert [S(1), S(2)][0 := names[0]] == [X(1), S(2)];
    RunPivots(Textbook, DegenerateInitial(p), names, [S(1), S(2)], fuel, 0, 0, DegenerateTextbook(p), [X(1), S(2)], fuel - 1);
    RunStops(Textbook, DegenerateTextbook(p), names, [X(1), S(2)], fuel - 1);
    var sol := map[X(1) := 0.0, S(1) := 0.0, S(2) := p, Z := 0.0];
    assert StructuralValues(sol, 1) == [0.0];
    DegenerateFeasibility(p);
  }

  // ---------------------------------------------------------------------------
  // maximise x_1 subject to -x_1 <= q, x_1 >= 0 (unbounded)

  /** The initial tableau. */
  function UnboundedInitial(q: real): Matrix {
    [[-1.0, 1.0, q], [-1.0, 0.0, 0.0]]
  }

  lemma UnboundedStart(q: real)
    ensures WellFormedProgram([[-1.0]], [q], [1.0]) && InitialTableau([[-1.0]], [q], [1.0]) == UnboundedInitial(q)
  {
    var A, b, c := [[-1.0]], [q], [1.0];
    InitialRows(A, b, c);
    var T0 := InitialTableau(A, b, c);
    assert IdentityRow(0, 1) == [1.0] && Negated(c) == [-1.0] && Zeros(2) == [0.0, 0.0];
    assert T0[0] == [-1.0, 1.0, q] && T0[1] == [-1.0, 0.0, 0.0];
  }

  /** x_1 enters, and no row has a positive entry in its column. */
  lemma UnboundedChoice(q: real)
    requires q >= 0.0
    ensures !IsOptimal(UnboundedInitial(q)) && EnteringCol(UnboundedInitial(q)) == 0
    ensures DepartingRow(UnboundedInitial(q), 0) == -1 && TextbookRow(UnboundedInitial(q), 0) == -1
  {
    var T := UnboundedInitial(q);
    assert Bottom(T)[0] < 0.0;
    assert Ratio(T, 0, 0) == -q && Ratio(T, 0, 1) == 0.0;
  }

  /**
   * No row passes either ratio test, so the run stops on its first pass with
   * the outcome the solver reports as infeasible, although the program is
   * feasible at every x_1 >= 0 and its objective is unbounded.
   */
  lemma UnboundedReportedInfeasible(q: real, fuel: nat)
    requires q >= 0.0 && fuel >= 1
    ensures WellFormedProgram([[-1.0]], [q], [1.0])
    ensures Solve(AsWritten, [[-1.0]], [q], [1.0], fuel).outcome == Infeasible
    ensures Solve(Textbook, [[-1.0]], [q], [1.0], fuel).outcome == Infeasible
    ensures forall t: real :: t >= 0.0 ==> Feasible([[-1.0]], [q], [1.0], [t])
  {
    var A, b, c := [[-1.0]], [q], [1.0];
    UnboundedStart(q);
    UnboundedChoice(q);
    var ent, dep := EnteringNames(1, 1), SlackNames(1);
    RunStops(AsWritten, UnboundedInitial(q), ent, dep, fuel);
    RunStops(Textbook, UnboundedInitial(q), ent, dep, fuel);
    forall t: real | t >= 0.0 ensures Feasible(A, b, c, [t]) {
      assert Dot(A[0], [t]) == -t by {
        assert DotFrom(A[0], [t], 1) == 0.0;
      }
    }
  }
}
