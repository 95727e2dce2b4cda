/**
 * What a Solved outcome means for the linear program "maximise c.x subject to
 * A x <= b, x >= 0": the value `Z` is an upper bound on c.x over every feasible x,
 * and the point the solution names solves A x + s = b with c.x equal to `Z`. So
 * when that point is nonnegative it is an optimum.
 */
module Optimality {
  import opened Tableau
  import opened PivotRules
  import opened SimplexRun
  import opened Equations

  /** x is a feasible point of the program (A, b, c). */
  ghost predicate Feasible(A: Matrix, b: seq<real>, c: seq<real>, x: seq<real>) {
    |x| == |c| && |b| == |A| &&
    (forall k :: 0 <= k < |x| ==> x[k] >= 0.0) &&
    (forall r :: 0 <= r < |A| ==> |A[r]| == |x| && Dot(A[r], x) <= b[r])
  }

  /** The values of x_1, ..., x_n in a solution (0 for a missing key). */
  function StructuralValues(sol: map<Name, real>, n: nat): (x: seq<real>)
    ensures |x| == n
  {
    seq(n, k requires 0 <= k < n => if X(k + 1) in sol then sol[X(k + 1)] else 0.0)
  }

  /** The values of s_1, ..., s_m in a solution (0 for a missing key). */
  function SlackValues(sol: map<Name, real>, m: nat): (s: seq<real>)
    ensures |s| == m
  {
    seq(m, k requires 0 <= k < m => if S(k + 1) in sol then sol[S(k + 1)] else 0.0)
  }

  /**
   * On a tableau whose objective row has no negative entry before the
   * right-hand side, every point with nonnegative coordinates has objective-row
   * dot product at least minus the bottom-right entry.
   */
  lemma OptimalRowBound(T: Matrix, v: seq<real>)
    requires |T| > 0 && IsOptimal(T) && |v| == |Bottom(T)| > 0 && v[|v| - 1] == -1.0
    requires forall k :: 0 <= k < |v| - 1 ==> v[k] >= 0.0
    ensures Dot(Bottom(T), v) >= -Rhs(Bottom(T))
  {
    DotAtLeastLast(Bottom(T), v, 0);
  }

  /**
   * v sets every basic variable to its row's right-hand side, every other
   * variable to 0, and has -1 in the right-hand-side position.
   */
  ghost predicate BasicPoint(T: Matrix, ent: seq<Name>, dep: seq<Name>, v: seq<real>)
    requires Shaped(T, ent, dep)
  {
    |v| == |ent| && v[|v| - 1] == -1.0 &&
    forall k :: 0 <= k < |ent| - 1 ==>
      v[k] == (if ent[k] in dep then Rhs(T[IndexOf(dep, ent[k])]) else 0.0)
  }

  /** At a basic point, a term T[r][k] * v[k] vanishes unless column k is the basic column of row r. */
  lemma BasicTermVanishes(T: Matrix, ent: seq<Name>, dep: seq<Name>, v: seq<real>, r: nat, k: nat)
    requires Shaped(T, ent, dep) && Distinct(ent) && BasisUnit(T, ent, dep)
    requires BasicPoint(T, ent, dep, v)
    requires r < |T| && k < |ent| - 1 && !(r < |dep| && k == IndexOf(ent, dep[r]))
    ensures T[r][k] * v[k] == 0.0
  {
    if ent[k] in dep {
      var i := IndexOf(dep, ent[k]);
      IndexOfDistinct(ent, k);
      assert UnitColumn(T, k, i);
      assert r != i;
      assert T[r][k] == 0.0;
    }
  }

  /** At a basic point, constraint row r holds. */
  lemma BasicRowSolves(T: Matrix, ent: seq<Name>, dep: seq<Name>, v: seq<real>, r: nat)
    requires Shaped(T, ent, dep) && Distinct(ent) && BasisUnit(T, ent, dep)
    requires ent[|ent| - 1] !in dep && BasicPoint(T, ent, dep, v) && r < |dep|
    ensures Dot(T[r], v) == 0.0
  {
    var k0 := IndexOf(ent, dep[r]);
    assert k0 != |ent| - 1;
    forall k | 0 <= k < |ent| - 1 && k != k0 ensures T[r][k] * v[k] == 0.0 {
      BasicTermVanishes(T, ent, dep, v, r, k);
    }
    DotSparse(T[r], v, k0, 0);
    assert UnitColumn(T, k0, r);
    BasisDistinct(T, ent, dep);
    assert IndexOf(dep, ent[k0]) == r;
  }

  /** At a basic point, the objective row's dot product is minus its right-hand side. */
  lemma BasicBottomValue(T: Matrix, ent: seq<Name>, dep: seq<Name>, v: seq<real>)
    requires Shaped(T, ent, dep) && Distinct(ent) && BasisUnit(T, ent, dep)
    requires BasicPoint(T, ent, dep, v)
    ensures Dot(Bottom(T), v) == -Rhs(Bottom(T))
  {
    var r := |T| - 1;
    forall k | 0 <= k < |ent| - 1 ensures T[r][k] * v[k] == 0.0 {
      BasicTermVanishes(T, ent, dep, v, r, k);
    }
    DotSparse(Bottom(T), v, -1, 0);
  }

  /**
   * The point that sets every basic variable to its row's right-hand side and
   * every other variable to 0 solves the constraint rows, and the objective row's
   * dot product there is minus the bottom-right entry.
   */
  lemma BasicPointSolves(T: Matrix, ent: seq<Name>, dep: seq<Name>, v: seq<real>)
    requires Shaped(T, ent, dep) && Distinct(ent) && BasisUnit(T, ent, dep)
    requires ent[|ent| - 1] !in dep && BasicPoint(T, ent, dep, v)
    ensures ConstraintsHold(T, v)
    ensures Dot(Bottom(T), v) == -Rhs(Bottom(T))
  {
    forall r | 0 <= r < |dep| ensures Dot(T[r], v) == 0.0 {
      BasicRowSolves(T, ent, dep, v, r);
    }
    BasicBottomValue(T, ent, dep, v);
  }

  /** The solution's values, laid out as a point, form the basic point of the final tableau. */
  lemma SolutionIsBasicPoint(T: Matrix, n: nat, m: nat, dep: seq<Name>)
    requires Shaped(T, EnteringNames(n, m), dep)
    ensures var sol := Solution(T, EnteringNames(n, m), dep);
      BasicPoint(T, EnteringNames(n, m), dep, Point(StructuralValues(sol, n), SlackValues(sol, m)))
  {
    var ent := EnteringNames(n, m);
    var sol := Solution(T, ent, dep);
    var x, s := StructuralValues(sol, n), SlackValues(sol, m);
    var v := Point(x, s);
    forall k | 0 <= k < |ent| - 1
      ensures v[k] == (if ent[k] in dep then Rhs(T[IndexOf(dep, ent[k])]) else 0.0)
    {
      if k < n {
        assert ent[k] == X(k + 1) && v[k] == x[k];
      } else {
        assert ent[k] == S(k - n + 1) && v[k] == s[k - n];
      }
    }
  }

  /**
   * On a point with nonnegative coordinates that solves the constraint rows, a
   * run that ends Solved reports a `Z` value at least minus the objective-row
   * dot product of the starting tableau.
   */
  lemma RunValueBound(rule: RatioRule, T: Matrix, ent: seq<Name>, dep: seq<Name>, fuel: nat, v: seq<real>)
    requires Shaped(T, ent, dep) && |v| == |ent| && v[|v| - 1] == -1.0
    requires forall k :: 0 <= k < |v| - 1 ==> v[k] >= 0.0
    requires ConstraintsHold(T, v)
    ensures var h := Run(rule, T, ent, dep, fuel);
      h.outcome.Solved? ==> Z in h.outcome.solution && Dot(Bottom(T), v) >= -h.outcome.solution[Z]
  {
    var h := Run(rule, T, ent, dep, fuel);
    RunHalts(rule, T, ent, dep, fuel);
    RunPreservesEquations(rule, T, ent, dep, fuel, v);
    if h.outcome.Solved? {
      OptimalRowBound(h.tableau, v);
    }
  }

  /**
   * A run from a tableau whose departing labels name unit columns that ends
   * Solved, with `B` no row label at the end, reports a point that solves the
   * starting tableau's constraint rows and whose objective-row dot product there
   * is minus the reported `Z` value.
   */
  lemma RunSolvedPoint(rule: RatioRule, T: Matrix, n: nat, m: nat, dep: seq<Name>, fuel: nat)
    requires Shaped(T, EnteringNames(n, m), dep) && BasisUnit(T, EnteringNames(n, m), dep)
    ensures var h := Run(rule, T, EnteringNames(n, m), dep, fuel);
      h.outcome.Solved? && B !in h.departing ==>
        var v := Point(StructuralValues(h.outcome.solution, n), SlackValues(h.outcome.solution, m));
        Z in h.outcome.solution && ConstraintsHold(T, v) && Dot(Bottom(T), v) == -h.outcome.solution[Z]
  {
    var ent := EnteringNames(n, m);
    var h := Run(rule, T, ent, dep, fuel);
    RunHalts(rule, T, ent, dep, fuel);
    if h.outcome.Solved? && B !in h.departing {
      var sol := h.outcome.solution;
      var v := Point(StructuralValues(sol, n), SlackValues(sol, m));
      EnteringNamesDistinct(n, m);
      RunKeepsBasis(rule, T, ent, dep, fuel);
      SolutionIsBasicPoint(h.tableau, n, m, h.departing);
      BasicPointSolves(h.tableau, ent, h.departing, v);
      RunPreservesEquations(rule, T, ent, dep, fuel, v);
    }
  }

  /** The initial tableau's constraint rows hold at (x, s) exactly when A x + s = b. */
  lemma InitialConstraints(A: Matrix, b: seq<real>, c: seq<real>, x: seq<real>, s: seq<real>)
    requires WellFormedProgram(A, b, c) && |x| == |c| && |s| == |A|
    ensures ConstraintsHold(InitialTableau(A, b, c), Point(x, s)) <==>
      forall r :: 0 <= r < |A| ==> Dot(A[r], x) + s[r] == b[r]
  {
    InitialTableauShape(A, b, c);
    forall r | 0 <= r < |A| ensures Dot(InitialTableau(A, b, c)[r], Point(x, s)) == Dot(A[r], x) + s[r] - b[r] {
      InitialRowEquation(A, b, c, x, s, r);
    }
  }

  /**
   * Whatever a run of the solver returns as Solved, its `Z` value bounds c.x from
   * above over every feasible point x.
   */
  lemma SolvedIsUpperBound(rule: RatioRule, A: Matrix, b: seq<real>, c: seq<real>, fuel: nat, x: seq<real>)
    requires WellFormedProgram(A, b, c) && Feasible(A, b, c, x)
    ensures var h := Solve(rule, A, b, c, fuel);
      h.outcome.Solved? ==> Z in h.outcome.solution && Dot(c, x) <= h.outcome.solution[Z]
  {
    var n, m := |c|, |A|;
    InitialTableauShape(A, b, c);
    var s := seq(m, r requires 0 <= r < m => b[r] - Dot(A[r], x));
    InitialConstraints(A, b, c, x, s);
    InitialBottomEquation(A, b, c, x, s);
    RunValueBound(rule, InitialTableau(A, b, c), EnteringNames(n, m), SlackNames(m), fuel, Point(x, s));
  }

  /**
   * When a run ends Solved and the right-hand-side label is no row label at the
   * end, the solution names a point (x, s) with A x + s = b whose objective c.x
   * is the solution's `Z` value.
   */
  lemma SolvedAttainsValue(rule: RatioRule, A: Matrix, b: seq<real>, c: seq<real>, fuel: nat)
    requires WellFormedProgram(A, b, c)
    ensures var h := Solve(rule, A, b, c, fuel);
      h.outcome.Solved? && B !in h.departing ==>
        var x := StructuralValues(h.outcome.solution, |c|);
        var s := SlackValues(h.outcome.solution, |A|);
        && (forall r :: 0 <= r < |A| ==> Dot(A[r], x) + s[r] == b[r])
        && Z in h.outcome.solution && Dot(c, x) == h.outcome.solution[Z]
  {
    var n, m := |c|, |A|;
    InitialTableauShape(A, b, c);
    InitialBasis(A, b, c);
    RunSolvedPoint(rule, InitialTableau(A, b, c), n, m, SlackNames(m), fuel);
    var h := Solve(rule, A, b, c, fuel);
    if h.outcome.Solved? && B !in h.departing {
      var x, s := StructuralValues(h.outcome.solution, n), SlackValues(h.outcome.solution, m);
      InitialConstraints(A, b, c, x, s);
      InitialBottomEquation(A, b, c, x, s);
    }
  }

  /**
   * A Solved outcome whose point is nonnegative (and whose right-hand-side
   * label is no row label at the end) is an optimum: that point is feasible and
   * no feasible point has a larger objective.
   */
  lemma SolvedIsOptimal(rule: RatioRule, A: Matrix, b: seq<real>, c: seq<real>, fuel: nat, y: seq<real>)
    requires WellFormedProgram(A, b, c) && Feasible(A, b, c, y)
    ensures var h := Solve(rule, A, b, c, fuel);
      h.outcome.Solved? && B !in h.departing ==>
        var x := StructuralValues(h.outcome.solution, |c|);
        var s := SlackValues(h.outcome.solution, |A|);
        (forall k :: 0 <= k < |x| ==> x[k] >= 0.0) && (forall r :: 0 <= r < |s| ==> s[r] >= 0.0) ==>
          Feasible(A, b, c, x) && Dot(c, y) <= Dot(c, x)
  {
    SolvedIsUpperBound(rule, A, b, c, fuel, y);
    SolvedAttainsValue(rule, A, b, c, fuel);
  }
}
