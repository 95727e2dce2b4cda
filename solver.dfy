/**
 * The solver object: it holds the program (A, b, c), the tableau and the column
 * and row labels, and updates them in place as the simplex method proceeds.
 * Every method is proved against the specification functions of the Tableau,
 * PivotRules and SimplexRun modules.
 */
module Solver {
  import opened Tableau
  import opened PivotRules
  import opened SimplexRun

  /**
   * The label of column i of a matrix of width w whose first n columns are
   * structural: x_{i+1} for those, then s_{i+1-n} up to the last column, which
   * is the right-hand side `b`.
   */
  function ColumnLabel(i: nat, n: nat, w: nat): Name {
    if i < n then X(i + 1) else if i + 1 < w then S(i + 1 - n) else B
  }

  /**
   * The labels of all w columns: x_1..x_n, then s_1..s_{w-1-n}, then b when the
   * matrix is wider than its n structural columns, and x_1..x_w otherwise.
   */
  function ColumnLabels(n: nat, w: nat): (r: seq<Name>)
    ensures |r| == w
    ensures n < w ==> r == Structural(n) + SlackNames(w - 1 - n) + [B]
    ensures w <= n ==> r == Structural(w)
  {
    var r := seq(w, i requires 0 <= i < w => ColumnLabel(i, n, w));
    assert n < w ==> r == Structural(n) + SlackNames(w - 1 - n) + [B] by {
      if n < w {
        var layout := Structural(n) + SlackNames(w - 1 - n) + [B];
        forall i | 0 <= i < w ensures r[i] == layout[i] {
          if i < n {
            assert layout[i] == Structural(n)[i];
          } else if i < w - 1 {
            assert layout[i] == SlackNames(w - 1 - n)[i - n];
          }
        }
      }
    }
    r
  }

  /** How many of the first i columns (of w, n structural) are slack columns. */
  function SlackCount(i: nat, n: nat, w: nat): nat {
    if i <= n then 0 else if i < w then i - n else if n < w then w - 1 - n else 0
  }

  /**
   * On the tableau of n variables and m constraints (width n + m + 1) the labels
   * are x_1..x_n, s_1..s_m, b, with s_1..s_m departing; on the matrix [A | b]
   * (width n + 1) they are x_1..x_n, b, with nothing departing.
   */
  lemma LabelsOfWidth(n: nat, m: nat)
    ensures ColumnLabels(n, n + m + 1) == EnteringNames(n, m)
    ensures SlackCount(n + m + 1, n, n + m + 1) == m
    ensures ColumnLabels(n, n + 1) == Structural(n) + [B]
    ensures SlackCount(n + 1, n, n + 1) == 0
  {
  }

  class SimplexSolver {
    var a: Matrix
    var b: seq<real>
    var c: seq<real>
    var tableau: Matrix
    var entering: seq<Name>
    var departing: seq<Name>

    constructor ()
      ensures a == [] && b == [] && c == [] && tableau == [] && entering == [] && departing == []
    {
      a := [];
      b := [];
      c := [];
      tableau := [];
      entering := [];
      departing := [];
    }

    /**
     * Solves the program "maximise c.x subject to A x <= b, x >= 0" on a fresh
     * solver: the outcome and the final tableau and departing labels are those
     * of the specification run `Solve` with the solver's own ratio test. At most
     * `fuel` pivots are made.
     */
    method RunSimplex(A: Matrix, b0: seq<real>, c0: seq<real>, fuel: nat) returns (outcome: Outcome)
      requires a == [] && WellFormedProgram(A, b0, c0)
      modifies this
      ensures Halt(tableau, departing, outcome) == Solve(AsWritten, A, b0, c0, fuel)
      ensures a == A && b == b0 && c == c0 && entering == EnteringNames(|c0|, |A|)
    {
      SetSimplexInput(A, b0, c0);
      InitialTableauShape(A, b0, c0);
      var left := fuel;
      ghost var goal := Solve(AsWritten, A, b0, c0, fuel);
      ghost var ent := entering;
      while true
        invariant a == A && b == b0 && c == c0 && entering == ent == EnteringNames(|c0|, |A|)
        invariant Shaped(tableau, ent, departing)
        invariant Run(AsWritten, tableau, ent, departing, left) == goal
        decreases left
      {
        var done := ShouldTerminate();
        if done {
          break;
        }
        if left == 0 {
          return FuelExhausted;
        }
        ghost var T, dep, before := tableau, departing, left;
        var e, d := FindPivot();
        RunStops(AsWritten, T, ent, dep, left);
        if d < 0 {
          return Infeasible;
        }
        if d >= |departing| {
          return DepartingIndexError;
        }
        Pivot(e, d);
        left := left - 1;
        RunPivots(AsWritten, T, ent, dep, before, e, d, tableau, departing, left);
      }
      RunStops(AsWritten, tableau, ent, departing, left);
      var solution := GetCurrentSolution();
      outcome := Solved(solution);
    }

    /**
     * Stores the program and builds the initial tableau and labels. The
     * solver must be fresh: the rows of A are appended to `a`.
     */
    method SetSimplexInput(A: Matrix, b0: seq<real>, c0: seq<real>)
      requires a == [] && WellFormedProgram(A, b0, c0)
      modifies this
      ensures a == A && b == b0 && c == c0
      ensures tableau == InitialTableau(A, b0, c0)
      ensures entering == EnteringNames(|c0|, |A|) && departing == SlackNames(|A|)
    {
      var k := 0;
      while k < |A|
        invariant 0 <= k <= |A| && a == A[..k]
      {
        a := a + [A[k]];
        k := k + 1;
      }
      assert A[..|A|] == A;
      b := b0;
      c := c0;
      var ab := GetAb();
      UpdateEnterDepart(ab);
      CreateTableau();
      InitialTableauShape(A, b0, c0);
      UpdateEnterDepart(tableau);
      LabelsOfWidth(|c0|, |A|);
    }

    /**
     * Relabels the columns of a matrix: structural columns (as many as A has
     * columns), then slack columns, then the right-hand side; the slack labels
     * are also the departing labels.
     */
    method UpdateEnterDepart(matrix: Matrix)
      requires |matrix| > 0 && |a| > 0
      modifies this
      ensures a == old(a) && b == old(b) && c == old(c) && tableau == old(tableau)
      ensures entering == ColumnLabels(|a[0]|, |matrix[0]|)
      ensures departing == SlackNames(SlackCount(|matrix[0]|, |a[0]|, |matrix[0]|))
    {
      var n, w := |a[0]|, |matrix[0]|;
      entering := [];
      departing := [];
      var i := 0;
      while i < w
        invariant 0 <= i <= w
        invariant entering == ColumnLabels(n, w)[..i]
        invariant departing == SlackNames(SlackCount(i, n, w))
        invariant a == old(a) && b == old(b) && c == old(c) && tableau == old(tableau)
      {
        if i < n {
          entering := entering + [X(i + 1)];
        } else if i < w - 1 {
          entering := entering + [S(i + 1 - n)];
          departing := departing + [S(i + 1 - n)];
        } else {
          entering := entering + [B];
        }
        i := i + 1;
      }
      assert ColumnLabels(n, w)[..w] == ColumnLabels(n, w);
    }

    /** Appends the identity matrix and the right-hand side b to the rows of the tableau. */
    method AddSlackVariables()
      requires |b| >= |tableau|
      modifies this
      ensures a == old(a) && b == old(b) && c == old(c)
      ensures |tableau| == |old(tableau)|
      ensures forall i :: 0 <= i < |tableau| ==>
        tableau[i] == old(tableau)[i] + IdentityRow(i, |tableau|) + [b[i]]
      ensures entering == old(entering) && departing == old(departing)
    {
      var slackVars := GenerateIdentity(|tableau|);
      var i := 0;
      while i < |slackVars|
        invariant a == old(a) && b == old(b) && c == old(c)
        invariant 0 <= i <= |slackVars| && |tableau| == |old(tableau)| == |slackVars|
        invariant forall q :: 0 <= q < i ==>
          tableau[q] == old(tableau)[q] + IdentityRow(q, |tableau|) + [b[q]]
        invariant forall q :: i <= q < |tableau| ==> tableau[q] == old(tableau)[q]
        invariant entering == old(entering) && departing == old(departing)
      {
        tableau := tableau[i := tableau[i] + slackVars[i]];
        tableau := tableau[i := tableau[i] + [b[i]]];
        i := i + 1;
      }
    }

    /** Builds the initial tableau from the stored program. */
    method CreateTableau()
      requires |b| == |a|
      modifies this
      ensures a == old(a) && b == old(b) && c == old(c)
      ensures tableau == InitialTableau(a, b, c)
      ensures entering == old(entering) && departing == old(departing)
    {
      tableau := a;
      AddSlackVariables();
      var negC := c;
      var index := 0;
      while index < |negC|
        invariant 0 <= index <= |negC| == |c|
        invariant forall k :: 0 <= k < index ==> negC[k] == -c[k]
        invariant forall k :: index <= k < |c| ==> negC[k] == c[k]
      {
        negC := negC[index := -negC[index]];
        index := index + 1;
      }
      assert negC == Negated(c);
      tableau := tableau + [negC + Zeros(|b| + 1)];
      InitialRows(a, b, c);
    }

    /** Chooses the pivot: the entering column, then the departing row for it. */
    method FindPivot() returns (enterIndex: nat, departIndex: int)
      requires |tableau| > 0 && |Bottom(tableau)| > 0 && Rectangular(tableau, |Bottom(tableau)|)
      ensures enterIndex == EnteringCol(tableau)
      ensures departIndex == DepartingRow(tableau, enterIndex)
    {
      enterIndex := GetEnteringVar();
      departIndex := GetDepartingVar(enterIndex);
    }

    /**
     * The pivot on row i and column j: the tableau becomes the Gauss-Jordan
     * pivot of the old one, and the label of column j becomes row i's label.
     */
    method Pivot(j: int, i: int)
      requires PivotAt(tableau, i, j) && i < |departing| && j < |entering|
      modifies this
      ensures tableau == PivotTableau(old(tableau), i, j)
      ensures departing == old(departing)[i := old(entering)[j]]
      ensures entering == old(entering) && a == old(a) && b == old(b) && c == old(c)
    {
      var T0 := tableau;
      var pivot := tableau[i][j];
      tableau := tableau[i := ScaleRow(tableau[i], pivot)];
      var index := 0;
      while index < |tableau|
        invariant 0 <= index <= |tableau| == |T0|
        invariant tableau[i] == PivotRow(T0, i, j, i)
        invariant forall r :: 0 <= r < |T0| && r != i ==>
          tableau[r] == if r < index then PivotRow(T0, i, j, r) else T0[r]
        invariant departing == old(departing) && entering == old(entering)
        invariant a == old(a) && b == old(b) && c == old(c)
      {
        if index != i {
          tableau := tableau[index := Eliminate(tableau[index], tableau[index][j], tableau[i])];
        }
        index := index + 1;
      }
      assert tableau == PivotTableau(T0, i, j);
      departing := departing[i := entering[j]];
    }

    /** The column of the most negative objective-row entry, the first one on ties. */
    method GetEnteringVar() returns (mostNegInd: nat)
      requires |tableau| > 0 && |Bottom(tableau)| > 0
      ensures mostNegInd == EnteringCol(tableau)
      ensures IsFirstMin(Bottom(tableau), mostNegInd)
    {
      var bottomRow := tableau[|tableau| - 1];
      mostNegInd := 0;
      var mostNeg := bottomRow[mostNegInd];
      var index := 0;
      while index < |bottomRow|
        invariant 0 <= index <= |bottomRow| && mostNegInd < |bottomRow|
        invariant mostNeg == bottomRow[mostNegInd]
        invariant ArgMinFrom(bottomRow, mostNegInd, index) == ArgMinFrom(bottomRow, 0, 0)
      {
        if bottomRow[index] < mostNeg {
          mostNeg := bottomRow[index];
          mostNegInd := index;
        }
        index := index + 1;
      }
      EnteringColSpec(tableau);
    }

    /**
     * The departing row for column e, or -1: the first row with a nonzero entry
     * and a positive ratio, then any later row with a positive entry and a
     * strictly smaller ratio.
     */
    method GetDepartingVar(e: int) returns (minRatioIndex: int)
      requires Covers(tableau, e)
      ensures minRatioIndex == DepartingRow(tableau, e)
    {
      var T := tableau;
      var skip := 0;
      minRatioIndex := -1;
      var minRatio := 0.0;
      var index := 0;
      while index < |T|
        invariant 0 <= index <= |T|
        invariant FirstHit(T, e, index) == FirstHit(T, e, 0)
        invariant minRatioIndex == -1 && minRatio == 0.0 && skip == 0
      {
        var x := T[index];
        if x[e] != 0.0 && x[|x| - 1] / x[e] > 0.0 {
          skip := index;
          minRatioIndex := index;
          minRatio := x[|x| - 1] / x[e];
          break;
        }
        index := index + 1;
      }
      if minRatio > 0.0 {
        ghost var target := RefineMin(T, e, skip, skip + 1);
        index := 0;
        while index < |T|
          invariant 0 <= index <= |T| && 0 <= skip < |T| && FirstHit(T, e, 0) == skip
          invariant index <= skip + 1 ==> minRatioIndex == skip
          invariant 0 <= minRatioIndex < |T| && T[minRatioIndex][e] != 0.0
          invariant minRatio == Ratio(T, e, minRatioIndex)
          invariant index > skip ==> RefineMin(T, e, minRatioIndex, index) == target
        {
          var x := T[index];
          ghost var best := minRatioIndex;
          if index > skip && x[e] > 0.0 {
            var ratio := x[|x| - 1] / x[e];
            assert ratio == Ratio(T, e, index);
            if minRatio > ratio {
              minRatio := ratio;
              minRatioIndex := index;
            }
          }
          if index > skip {
            RefineMinStep(T, e, best, index);
            assert minRatioIndex == if x[e] > 0.0 && Ratio(T, e, best) > Ratio(T, e, index) then index else best;
            assert RefineMin(T, e, minRatioIndex, index + 1) == target;
          }
          index := index + 1;
        }
      }
    }

    /** Appends b[i] to each row A[i]. */
    method GetAb() returns (matrix: Matrix)
      requires |b| >= |a|
      ensures |matrix| == |a|
      ensures forall i :: 0 <= i < |a| ==> matrix[i] == a[i] + [b[i]]
    {
      matrix := a;
      var i := 0;
      while i < |matrix|
        invariant 0 <= i <= |matrix| == |a|
        invariant forall q :: 0 <= q < i ==> matrix[q] == a[q] + [b[q]]
        invariant forall q :: i <= q < |a| ==> matrix[q] == a[q]
      {
        matrix := matrix[i := matrix[i] + [b[i]]];
        i := i + 1;
      }
    }

    /** The termination test: no negative objective-row entry except possibly the last. */
    method ShouldTerminate() returns (result: bool)
      requires |tableau| > 0
      ensures result <==> IsOptimal(tableau)
    {
      result := true;
      var row := tableau[|tableau| - 1];
      var i := 0;
      while i < |row|
        invariant 0 <= i <= |row|
        invariant result <==> forall k :: 0 <= k < i && k != |row| - 1 ==> row[k] >= 0.0
      {
        if row[i] < 0.0 && i != |row| - 1 {
          result := false;
        }
        i := i + 1;
      }
      assert row == Bottom(tableau);
    }

    /**
     * The current solution: every column label except `b` maps to the
     * right-hand side of the first row it labels, or to 0; `Z` maps to the
     * bottom-right entry.
     */
    method GetCurrentSolution() returns (solution: map<Name, real>)
      requires Shaped(tableau, entering, departing)
      ensures solution == Solution(tableau, entering, departing)
    {
      solution := map[];
      var k := 0;
      while k < |entering|
        invariant 0 <= k <= |entering|
        invariant solution.Keys == set y | y in entering[..k] && y != B
        invariant forall y :: y in solution ==>
          solution[y] == if y in departing then Rhs(tableau[IndexOf(departing, y)]) else 0.0
      {
        var x := entering[k];
        if x != B {
          if x in departing {
            var row := tableau[IndexOf(departing, x)];
            solution := solution[x := row[|row| - 1]];
          } else {
            solution := solution[x := 0.0];
          }
        }
        assert entering[..k + 1] == entering[..k] + [x];
        k := k + 1;
      }
      assert entering[..k] == entering;
      solution := solution[Z := tableau[|tableau| - 1][|tableau[0]| - 1]];
    }

    /** The n x n identity matrix. */
    method GenerateIdentity(n: nat) returns (I: Matrix)
      ensures |I| == n && forall i :: 0 <= i < n ==> I[i] == IdentityRow(i, n)
    {
      I := [];
      var i := 0;
      while i < n
        invariant 0 <= i <= n && |I| == i
        invariant forall q :: 0 <= q < i ==> I[q] == IdentityRow(q, n)
      {
        var row: seq<real> := [];
        var j := 0;
        while j < n
          invariant 0 <= j <= n && row == IdentityRow(i, n)[..j]
        {
          if i == j {
            row := row + [1.0];
          } else {
            row := row + [0.0];
          }
          j := j + 1;
        }
        assert IdentityRow(i, n)[..n] == IdentityRow(i, n);
        I := I + [row];
        i := i + 1;
      }
    }
  }
}
