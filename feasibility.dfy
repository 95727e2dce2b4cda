/**
 * Runs under the textbook ratio test. When every right-hand side of b is
 * nonnegative, each pivot keeps every right-hand side nonnegative, the
 * right-hand-side column never enters, the objective row is never chosen, and
 * a run that ends Solved reports a feasible point of largest objective.
 */
module Feasibility {
  import opened Tableau
  import opened PivotRules
  import opened SimplexRun
  import opened Equations
  import opened Optimality

  /** Every row's right-hand side, the objective row's included, is nonnegative. */
  ghost predicate RhsNonnegative(T: Matrix) {
    forall r :: 0 <= r < |T| ==> |T[r]| > 0 && Rhs(T[r]) >= 0.0
  }

  lemma QuotientNonnegative(a: real, p: real)
    requires a >= 0.0 && p > 0.0
    ensures a / p >= 0.0
  {
  }

  /** Subtracting a nonnegative multiple of a nonpositive entry cannot lower a value. */
  lemma StepNonpositive(a: real, f: real, t: real)
    requires a >= 0.0 && t >= 0.0 && f <= 0.0
    ensures a - t * f >= 0.0
  {
  }

  /** A row whose ratio is at least t keeps a nonnegative right-hand side. */
  lemma StepRatio(a: real, f: real, t: real)
    requires f > 0.0 && a / f >= t
    ensures a - t * f >= 0.0
  {
    assert a == (a / f) * f;
  }

  /**
   * When the objective row has a nonnegative right-hand side but fails the
   * termination test, the entering column holds a negative entry and is not
   * the right-hand-side column.
   */
  lemma EnteringNegative(T: Matrix)
    requires |T| > 0 && |Bottom(T)| > 0 && !IsOptimal(T) && Rhs(Bottom(T)) >= 0.0
    ensures Bottom(T)[EnteringCol(T)] < 0.0 && EnteringCol(T) < |Bottom(T)| - 1
  {
    EnteringColSpec(T);
  }

  /**
   * A pivot on the textbook departing row of a column whose objective-row entry
   * is negative keeps every right-hand side nonnegative.
   */
  lemma TextbookPivotKeepsRhs(T: Matrix, e: int, d: int)
    requires |T| > 0 && Covers(T, e) && RhsNonnegative(T) && Bottom(T)[e] < 0.0
    requires d == TextbookRow(T, e) && d != -1 && Rectangular(T, |T[d]|)
    ensures PivotAt(T, d, e) && RhsNonnegative(PivotTableau(T, d, e))
  {
    TextbookRowSpec(T, e);
    var T' := PivotTableau(T, d, e);
    var t := Rhs(T[d]) / T[d][e];
    QuotientNonnegative(Rhs(T[d]), T[d][e]);
    forall r | 0 <= r < |T| ensures |T'[r]| > 0 && Rhs(T'[r]) >= 0.0 {
      assert T'[r] == PivotRow(T, d, e, r);
      if r != d {
        assert Rhs(T'[r]) == Rhs(T[r]) - t * T[r][e];
        if T[r][e] > 0.0 {
          assert Eligible(T, e, r) || r == |T| - 1;
          StepRatio(Rhs(T[r]), T[r][e], t);
        } else {
          StepNonpositive(Rhs(T[r]), T[r][e], t);
        }
      }
    }
  }

  /**
   * Under the textbook rule, a run from a tableau with nonnegative right-hand
   * sides, in which the right-hand-side label `B` is the last column label and
   * no row's label, keeps both facts at every pivot and never chooses the
   * objective row.
   */
  lemma {:induction false} TextbookRunKeepsRhs(T: Matrix, ent: seq<Name>, dep: seq<Name>, fuel: nat)
    requires Shaped(T, ent, dep) && Distinct(ent) && ent[|ent| - 1] == B
    requires RhsNonnegative(T) && B !in dep
    ensures var h := Run(Textbook, T, ent, dep, fuel);
      RhsNonnegative(h.tableau) && B !in h.departing && !h.outcome.DepartingIndexError?
    decreases fuel
  {
    if !IsOptimal(T) && fuel > 0 {
      var e := EnteringCol(T);
      var d := ChooseRow(Textbook, T, e);
      if d != -1 {
        EnteringNegative(T);
        TextbookPivotKeepsRhs(T, e, d);
        assert ent[e] != B;
        PivotStepShaped(Textbook, T, ent, dep, e, d);
        TextbookRunKeepsRhs(PivotTableau(T, d, e), ent, dep[d := ent[e]], fuel - 1);
      }
    }
  }

  /** A solution read off a tableau with nonnegative right-hand sides has no negative value. */
  lemma SolutionNonnegative(T: Matrix, ent: seq<Name>, dep: seq<Name>)
    requires Shaped(T, ent, dep) && RhsNonnegative(T)
    ensures var sol := Solution(T, ent, dep);
      forall x :: x in sol ==> sol[x] >= 0.0
  {
  }

  /** With b nonnegative, the initial tableau has nonnegative right-hand sides. */
  lemma InitialRhsNonnegative(A: Matrix, b: seq<real>, c: seq<real>)
    requires WellFormedProgram(A, b, c) && forall r :: 0 <= r < |b| ==> b[r] >= 0.0
    ensures RhsNonnegative(InitialTableau(A, b, c))
  {
    InitialTableauShape(A, b, c);
  }

  /**
   * With b nonnegative, a run under the textbook rule never chooses the
   * objective row, and when it ends Solved its x is feasible and no feasible
   * point has a larger objective.
   */
  lemma TextbookSolvedIsOptimal(A: Matrix, b: seq<real>, c: seq<real>, fuel: nat, y: seq<real>)
    requires WellFormedProgram(A, b, c) && forall r :: 0 <= r < |b| ==> b[r] >= 0.0
    requires Feasible(A, b, c, y)
    ensures var h := Solve(Textbook, A, b, c, fuel);
      && !h.outcome.DepartingIndexError?
      && (h.outcome.Solved? ==>
            var x := StructuralValues(h.outcome.solution, |c|);
            && Feasible(A, b, c, x) && Dot(c, y) <= Dot(c, x)
            && Z in h.outcome.solution && Dot(c, x) == h.outcome.solution[Z])
  {
    var n, m := |c|, |A|;
    var ent := EnteringNames(n, m);
    InitialTableauShape(A, b, c);
    InitialRhsNonnegative(A, b, c);
    EnteringNamesDistinct(n, m);
    var T := InitialTableau(A, b, c);
    TextbookRunKeepsRhs(T, ent, SlackNames(m), fuel);
    var h := Solve(Textbook, A, b, c, fuel);
    if h.outcome.Solved? {
      RunHalts(Textbook, T, ent, SlackNames(m), fuel);
      SolutionNonnegative(h.tableau, ent, h.departing);
      var x, s := StructuralValues(h.outcome.solution, n), SlackValues(h.outcome.solution, m);
      assert forall k :: 0 <= k < |x| ==> x[k] >= 0.0;
      assert forall r :: 0 <= r < |s| ==> s[r] >= 0.0;
      SolvedIsOptimal(Textbook, A, b, c, fuel, y);
      SolvedAttainsValue(Textbook, A, b, c, fuel);
    }
  }
}
