/**
 * The main loop of the solver as a specification: from a tableau and its labels,
 * test for termination, choose the entering column and the departing row, pivot,
 * and repeat; stop with the solution read off the tableau or with a failure.
 */
module SimplexRun {
  import opened Tableau
  import opened PivotRules

  /** How a run ends. */
  datatype Outcome =
    | Solved(solution: map<Name, real>)  // the termination test held
    | Infeasible                         // no departing row: the solver returns None
    | DepartingIndexError                // the objective row was chosen as departing row
    | FuelExhausted                      // the pivot budget of the model ran out

  /** The final tableau and departing labels, and how the run ended. */
  datatype Halt = Halt(tableau: Matrix, departing: seq<Name>, outcome: Outcome)

  /**
   * A tableau with one row per departing label plus the objective row, and one
   * column per entering label.
   */
  ghost predicate Shaped(T: Matrix, ent: seq<Name>, dep: seq<Name>) {
    |T| == |dep| + 1 && |ent| >= 1 && Rectangular(T, |ent|)
  }

  /** The labels a solution reports: every column label but `B`, and `Z`. */
  ghost function Reported(ent: seq<Name>): set<Name> {
    (set y | y in ent && y != B) + {Z}
  }

  /**
   * The solution read off a tableau: every column label except `B` is a key; a
   * label that is some row's departing label gets that row's right-hand side
   * (the first such row), any other label 0; `Z` gets the bottom-right entry.
   */
  ghost function Solution(T: Matrix, ent: seq<Name>, dep: seq<Name>): (sol: map<Name, real>)
    requires Shaped(T, ent, dep)
    ensures sol.Keys == Reported(ent)
    ensures sol[Z] == Rhs(Bottom(T))
  {
    map x | x in Reported(ent) :: if x == Z then T[|T| - 1][|T[0]| - 1] else if x in dep then Rhs(T[IndexOf(dep, x)]) else 0.0
  }

  /** The loop, allowed at most `fuel` pivots. */
  ghost function Run(rule: RatioRule, T: Matrix, ent: seq<Name>, dep: seq<Name>, fuel: nat): (h: Halt)
    requires Shaped(T, ent, dep)
    ensures Shaped(h.tableau, ent, h.departing) && |h.tableau| == |T|
    decreases fuel, 1
  {
    if IsOptimal(T) then Halt(T, dep, Solved(Solution(T, ent, dep)))
    else if fuel == 0 then Halt(T, dep, FuelExhausted)
    else Advance(rule, T, ent, dep, fuel)
  }

  /** One pass of the loop body on a tableau that failed the termination test. */
  ghost function Advance(rule: RatioRule, T: Matrix, ent: seq<Name>, dep: seq<Name>, fuel: nat): (h: Halt)
    requires Shaped(T, ent, dep) && fuel > 0
    ensures Shaped(h.tableau, ent, h.departing) && |h.tableau| == |T|
    decreases fuel, 0
  {
    var e := EnteringCol(T);
    var d := ChooseRow(rule, T, e);
    if d < 0 then Halt(T, dep, Infeasible)
    else if d >= |dep| then Halt(T, dep, DepartingIndexError)
    else Run(rule, PivotTableau(T, d, e), ent, dep[d := ent[e]], fuel - 1)
  }

  /** The run of a fresh solver on the program (A, b, c). */
  ghost function Solve(rule: RatioRule, A: Matrix, b: seq<real>, c: seq<real>, fuel: nat): (h: Halt)
    requires WellFormedProgram(A, b, c)
    ensures |h.tableau| == |A| + 1 && |h.departing| == |A| && Rectangular(h.tableau, |c| + |A| + 1)
  {
    InitialTableauShape(A, b, c);
    Run(rule, InitialTableau(A, b, c), EnteringNames(|c|, |A|), SlackNames(|A|), fuel)
  }

  // ---------------------------------------------------------------------------
  // Lemmas

  /** A pivot chosen by the rules keeps the tableau and its labels in shape. */
  lemma PivotStepShaped(rule: RatioRule, T: Matrix, ent: seq<Name>, dep: seq<Name>, e: int, d: int)
    requires Shaped(T, ent, dep) && e == EnteringCol(T) && d == ChooseRow(rule, T, e) && 0 <= d < |dep|
    ensures PivotAt(T, d, e) && Shaped(PivotTableau(T, d, e), ent, dep[d := ent[e]])
  {
  }

  /**
   * The passes of the loop that stop: the termination test holds, the fuel is
   * spent, or the choice of departing row fails.
   */
  lemma RunStops(rule: RatioRule, T: Matrix, ent: seq<Name>, dep: seq<Name>, fuel: nat)
    requires Shaped(T, ent, dep)
    ensures IsOptimal(T) ==> Run(rule, T, ent, dep, fuel) == Halt(T, dep, Solved(Solution(T, ent, dep)))
    ensures !IsOptimal(T) && fuel == 0 ==> Run(rule, T, ent, dep, fuel) == Halt(T, dep, FuelExhausted)
    ensures !IsOptimal(T) && fuel > 0 ==>
      var d := ChooseRow(rule, T, EnteringCol(T));
      && (d < 0 ==> Run(rule, T, ent, dep, fuel) == Halt(T, dep, Infeasible))
      && (d >= |dep| ==> Run(rule, T, ent, dep, fuel) == Halt(T, dep, DepartingIndexError))
  {
  }

  /**
   * A pass of the loop that finds a departing row pivots, relabels that row and
   * goes on with one pivot fewer.
   */
  lemma RunPivots(rule: RatioRule, T: Matrix, ent: seq<Name>, dep: seq<Name>, fuel: nat, e: int, d: int,
                  T': Matrix, dep': seq<Name>, fuel': nat)
    requires Shaped(T, ent, dep) && !IsOptimal(T) && fuel == fuel' + 1
    requires e == EnteringCol(T) && d == ChooseRow(rule, T, e) && 0 <= d < |dep|
    requires PivotAt(T, d, e) && T' == PivotTableau(T, d, e) && dep' == dep[d := ent[e]]
    ensures Shaped(T', ent, dep')
    ensures Run(rule, T, ent, dep, fuel) == Run(rule, T', ent, dep', fuel')
  {
  }

  /**
   * A run ends Solved exactly when the termination test holds on the final
   * tableau, and then the solution is read off that tableau.
   */
  lemma {:induction false} RunHalts(rule: RatioRule, T: Matrix, ent: seq<Name>, dep: seq<Name>, fuel: nat)
    requires Shaped(T, ent, dep)
    ensures var h := Run(rule, T, ent, dep, fuel);
      && (h.outcome.Solved? <==> IsOptimal(h.tableau))
      && (h.outcome.Solved? ==> h.outcome.solution == Solution(h.tableau, ent, h.departing))
    decreases fuel
  {
    if !IsOptimal(T) && fuel > 0 {
      var e := EnteringCol(T);
      var d := ChooseRow(rule, T, e);
      if 0 <= d < |dep| {
        PivotStepShaped(rule, T, ent, dep, e, d);
        RunHalts(rule, PivotTableau(T, d, e), ent, dep[d := ent[e]], fuel - 1);
      }
    }
  }

  /**
   * A run ends Infeasible only when no departing row exists for the chosen
   * entering column, and DepartingIndexError only when the objective row was
   * chosen; in both cases the final tableau is the one on which the choice was
   * made, so no pivot follows the failed choice.
   */
  lemma {:induction false} RunFails(rule: RatioRule, T: Matrix, ent: seq<Name>, dep: seq<Name>, fuel: nat)
    requires Shaped(T, ent, dep)
    ensures var h := Run(rule, T, ent, dep, fuel);
      && (h.outcome.Infeasible? ==>
            !IsOptimal(h.tableau) && ChooseRow(rule, h.tableau, EnteringCol(h.tableau)) == -1)
      && (h.outcome.DepartingIndexError? ==>
            !IsOptimal(h.tableau) && ChooseRow(rule, h.tableau, EnteringCol(h.tableau)) == |h.departing|)
    decreases fuel
  {
    if !IsOptimal(T) && fuel > 0 {
      var e := EnteringCol(T);
      var d := ChooseRow(rule, T, e);
      if 0 <= d < |dep| {
        PivotStepShaped(rule, T, ent, dep, e, d);
        RunFails(rule, PivotTableau(T, d, e), ent, dep[d := ent[e]], fuel - 1);
      }
    }
  }

  /** Every pivot of a run keeps each departing label naming a unit column. */
  lemma {:induction false} RunKeepsBasis(rule: RatioRule, T: Matrix, ent: seq<Name>, dep: seq<Name>, fuel: nat)
    requires Shaped(T, ent, dep) && Distinct(ent) && BasisUnit(T, ent, dep)
    ensures BasisUnit(Run(rule, T, ent, dep, fuel).tableau, ent, Run(rule, T, ent, dep, fuel).departing)
    decreases fuel
  {
    if !IsOptimal(T) && fuel > 0 {
      var e := EnteringCol(T);
      var d := ChooseRow(rule, T, e);
      if 0 <= d < |dep| {
        PivotStepShaped(rule, T, ent, dep, e, d);
        PivotKeepsBasis(T, ent, dep, d, e);
        RunKeepsBasis(rule, PivotTableau(T, d, e), ent, dep[d := ent[e]], fuel - 1);
      }
    }
  }

  /**
   * What the solution says about a tableau whose departing labels name unit
   * columns: the label of row i is worth that row's right-hand side, and a
   * label of no row is worth 0.
   */
  lemma SolutionReadsBasis(T: Matrix, ent: seq<Name>, dep: seq<Name>)
    requires Shaped(T, ent, dep) && BasisUnit(T, ent, dep)
    ensures var sol := Solution(T, ent, dep);
      && (forall i :: 0 <= i < |dep| && dep[i] != B && dep[i] != Z ==> sol[dep[i]] == Rhs(T[i]))
      && (forall x :: x in ent && x != B && x != Z && x !in dep ==> sol[x] == 0.0)
  {
    var sol := Solution(T, ent, dep);
    BasisDistinct(T, ent, dep);
    forall i | 0 <= i < |dep| && dep[i] != B && dep[i] != Z ensures sol[dep[i]] == Rhs(T[i]) {
      assert dep[i] in ent;
      assert IndexOf(dep, dep[i]) == i;
    }
  }
}
