/**
 * The tableau read as a system of linear equations. A vector v with one entry per
 * column, its last entry -1, satisfies row r when the dot product of row r and v
 * is 0, that is, when the row's entries weighted by v sum to its right-hand side.
 * Pivoting preserves the solutions of the constraint rows and the value of the
 * objective row on them; this is what makes the value read off a final tableau
 * an upper bound on the objective.
 */
module Equations {
  import opened Tableau
  import opened PivotRules
  import opened SimplexRun

  /** The dot product. */
  function Dot(u: seq<real>, v: seq<real>): real
    requires |u| == |v|
  {
    DotFrom(u, v, 0)
  }

  /** The dot product of u[i..] and v[i..]. */
  function DotFrom(u: seq<real>, v: seq<real>, i: nat): real
    requires |u| == |v| && i <= |u|
    decreases |u| - i
  {
    if i == |u| then 0.0 else u[i] * v[i] + DotFrom(u, v, i + 1)
  }

  /** v solves every constraint row (all rows but the objective row). */
  ghost predicate ConstraintsHold(T: Matrix, v: seq<real>) {
    forall r :: 0 <= r < |T| - 1 ==> |T[r]| == |v| && Dot(T[r], v) == 0.0
  }

  // ---------------------------------------------------------------------------
  // Dot-product algebra

  /** Past a prefix p, the dot product of p + q with r + t is that of q with t. */
  lemma {:induction false} DotShift(p: seq<real>, q: seq<real>, r: seq<real>, t: seq<real>, j: nat)
    requires |p| == |r| && |q| == |t| && j <= |q|
    ensures DotFrom(p + q, r + t, |p| + j) == DotFrom(q, t, j)
    decreases |q| - j
  {
    if j < |q| {
      assert (p + q)[|p| + j] == q[j] && (r + t)[|p| + j] == t[j];
      DotShift(p, q, r, t, j + 1);
    }
  }

  lemma {:induction false} DotAppendFrom(u: seq<real>, u': seq<real>, v: seq<real>, v': seq<real>, i: nat)
    requires |u| == |v| && |u'| == |v'| && i <= |u|
    ensures DotFrom(u + u', v + v', i) == DotFrom(u, v, i) + Dot(u', v')
    decreases |u| - i
  {
    if i == |u| {
      DotShift(u, u', v, v', 0);
    } else {
      assert (u + u')[i] == u[i] && (v + v')[i] == v[i];
      DotAppendFrom(u, u', v, v', i + 1);
    }
  }

  lemma DotAppend(u: seq<real>, u': seq<real>, v: seq<real>, v': seq<real>)
    requires |u| == |v| && |u'| == |v'|
    ensures Dot(u + u', v + v') == Dot(u, v) + Dot(u', v')
  {
    DotAppendFrom(u, u', v, v', 0);
  }

  /** The field identity behind one step of DotScale. */
  lemma ScaleTerm(a: real, y: real, p: real, d: real)
    requires p != 0.0
    ensures (a / p) * y + d / p == (a * y + d) / p
  {
  }

  lemma {:induction false} DotScaleFrom(u: seq<real>, p: real, v: seq<real>, i: nat)
    requires |u| == |v| && p != 0.0 && i <= |u|
    ensures DotFrom(ScaleRow(u, p), v, i) == DotFrom(u, v, i) / p
    decreases |u| - i
  {
    if i < |u| {
      DotScaleFrom(u, p, v, i + 1);
      ScaleTerm(u[i], v[i], p, DotFrom(u, v, i + 1));
    }
  }

  lemma DotScale(u: seq<real>, p: real, v: seq<real>)
    requires |u| == |v| && p != 0.0
    ensures Dot(ScaleRow(u, p), v) == Dot(u, v) / p
  {
    DotScaleFrom(u, p, v, 0);
  }

  /** The ring identity behind one step of DotEliminate. */
  lemma EliminateTerm(a: real, p: real, y: real, f: real, du: real, dp: real)
    ensures (a - p * f) * y + (du - f * dp) == (a * y + du) - f * (p * y + dp)
  {
  }

  lemma {:induction false} DotEliminateFrom(u: seq<real>, f: real, pr: seq<real>, v: seq<real>, i: nat)
    requires |u| == |v| == |pr| && i <= |u|
    ensures DotFrom(Eliminate(u, f, pr), v, i) == DotFrom(u, v, i) - f * DotFrom(pr, v, i)
    decreases |u| - i
  {
    if i < |u| {
      DotEliminateFrom(u, f, pr, v, i + 1);
      EliminateTerm(u[i], pr[i], v[i], f, DotFrom(u, v, i + 1), DotFrom(pr, v, i + 1));
    }
  }

  lemma DotEliminate(u: seq<real>, f: real, pr: seq<real>, v: seq<real>)
    requires |u| == |v| == |pr|
    ensures Dot(Eliminate(u, f, pr), v) == Dot(u, v) - f * Dot(pr, v)
  {
    DotEliminateFrom(u, f, pr, v, 0);
  }

  lemma {:induction false} DotZerosFrom(k: nat, v: seq<real>, i: nat)
    requires |v| == k && i <= k
    ensures DotFrom(Zeros(k), v, i) == 0.0
    decreases k - i
  {
    if i < k {
      DotZerosFrom(k, v, i + 1);
    }
  }

  lemma {:induction false} DotNegatedFrom(c: seq<real>, x: seq<real>, i: nat)
    requires |c| == |x| && i <= |c|
    ensures DotFrom(Negated(c), x, i) == -DotFrom(c, x, i)
    decreases |c| - i
  {
    if i < |c| {
      DotNegatedFrom(c, x, i + 1);
    }
  }

  /** Only position i of the identity row counts. */
  lemma {:induction false} DotIdentityRow(i: nat, m: nat, s: seq<real>, from: nat)
    requires i < m && |s| == m && from <= m
    ensures DotFrom(IdentityRow(i, m), s, from) == if from <= i then s[i] else 0.0
    decreases m - from
  {
    if from < m {
      DotIdentityRow(i, m, s, from + 1);
    }
  }

  /**
   * With nonnegative entries against nonnegative weights before the last
   * position, the dot product from position i on is at least its last term.
   */
  lemma {:induction false} DotAtLeastLast(u: seq<real>, v: seq<real>, i: nat)
    requires |u| == |v| && i < |u|
    requires forall k :: 0 <= k < |u| - 1 ==> u[k] >= 0.0 && v[k] >= 0.0
    ensures DotFrom(u, v, i) >= u[|u| - 1] * v[|v| - 1]
    decreases |u| - i
  {
    if i < |u| - 1 {
      DotAtLeastLast(u, v, i + 1);
      assert u[i] * v[i] >= 0.0;
    }
  }

  /**
   * When every term before the last vanishes except possibly the one at k0, the
   * dot product from position i on is that term (if at or past i) plus the last one.
   */
  lemma {:induction false} DotSparse(u: seq<real>, v: seq<real>, k0: int, i: nat)
    requires |u| == |v| && i < |u|
    requires forall k :: 0 <= k < |u| - 1 && k != k0 ==> u[k] * v[k] == 0.0
    ensures DotFrom(u, v, i) ==
      (if i <= k0 < |u| - 1 then u[k0] * v[k0] else 0.0) + u[|u| - 1] * v[|v| - 1]
    decreases |u| - i
  {
    if i < |u| - 1 {
      DotSparse(u, v, k0, i + 1);
    }
  }

  // ---------------------------------------------------------------------------
  // Pivoting preserves the equations

  /**
   * Pivoting on a constraint row leaves the solutions of the constraint rows
   * unchanged, in both directions, and on those solutions the objective row's
   * dot product is unchanged.
   */
  lemma PivotPreservesEquations(T: Matrix, i: int, j: int, v: seq<real>)
    requires PivotAt(T, i, j) && i < |T| - 1 && |v| == |T[i]|
    ensures ConstraintsHold(T, v) <==> ConstraintsHold(PivotTableau(T, i, j), v)
    ensures ConstraintsHold(T, v) ==> Dot(Bottom(PivotTableau(T, i, j)), v) == Dot(Bottom(T), v)
  {
    var T' := PivotTableau(T, i, j);
    var a, a' := Dot(T[i], v), Dot(T'[i], v);
    DotScale(T[i], T[i][j], v);
    QuotientZero(a, T[i][j], a');
    if a' == 0.0 {
      forall r | 0 <= r < |T| && r != i ensures Dot(T'[r], v) == Dot(T[r], v) {
        DotEliminate(T[r], T[r][j], T'[i], v);
      }
    } else {
      assert !ConstraintsHold(T, v) && !ConstraintsHold(T', v) by {
        assert Dot(T[i], v) != 0.0 && Dot(T'[i], v) != 0.0;
      }
    }
  }

  lemma QuotientZero(a: real, p: real, a': real)
    requires p != 0.0 && a' == a / p
    ensures a == 0.0 <==> a' == 0.0
  {
    assert a == a' * p;
  }

  /**
   * A run leaves the solutions of the constraint rows unchanged, in both
   * directions, and keeps the objective row's dot product on them.
   */
  lemma {:induction false} RunPreservesEquations(rule: RatioRule, T: Matrix, ent: seq<Name>, dep: seq<Name>, fuel: nat, v: seq<real>)
    requires Shaped(T, ent, dep) && |v| == |ent|
    ensures var T' := Run(rule, T, ent, dep, fuel).tableau;
      (ConstraintsHold(T, v) <==> ConstraintsHold(T', v)) &&
      (ConstraintsHold(T, v) ==> |T'| > 0 && |Bottom(T')| == |v| && Dot(Bottom(T'), v) == Dot(Bottom(T), v))
    decreases fuel
  {
    if !IsOptimal(T) && fuel > 0 {
      var e := EnteringCol(T);
      var d := ChooseRow(rule, T, e);
      if 0 <= d < |dep| {
        PivotStepShaped(rule, T, ent, dep, e, d);
        PivotPreservesEquations(T, d, e, v);
        RunPreservesEquations(rule, PivotTableau(T, d, e), ent, dep[d := ent[e]], fuel - 1, v);
      }
    }
  }

  // ---------------------------------------------------------------------------
  // The initial tableau as equations

  /** The column vector of an assignment: x, then the slacks s, then -1. */
  function Point(x: seq<real>, s: seq<real>): (v: seq<real>)
    ensures |v| == |x| + |s| + 1 && v[|v| - 1] == -1.0
    ensures forall k :: 0 <= k < |x| ==> v[k] == x[k]
    ensures forall k :: 0 <= k < |s| ==> v[|x| + k] == s[k]
  {
    x + (s + [-1.0])
  }

  /** Constraint row r of the initial tableau holds at (x, s) exactly when A[r].x + s[r] = b[r]. */
  lemma InitialRowEquation(A: Matrix, b: seq<real>, c: seq<real>, x: seq<real>, s: seq<real>, r: nat)
    requires WellFormedProgram(A, b, c) && |x| == |c| && |s| == |A| && r < |A|
    ensures Dot(InitialTableau(A, b, c)[r], Point(x, s)) == Dot(A[r], x) + s[r] - b[r]
  {
    var m := |A|;
    InitialRows(A, b, c);
    var row := InitialTableau(A, b, c)[r];
    assert row == A[r] + (IdentityRow(r, m) + [b[r]]);
    DotAppend(A[r], IdentityRow(r, m) + [b[r]], x, s + [-1.0]);
    DotAppend(IdentityRow(r, m), [b[r]], s, [-1.0]);
    DotIdentityRow(r, m, s, 0);
    assert DotFrom([b[r]], [-1.0], 1) == 0.0;
  }

  /** On any point the objective row of the initial tableau has dot product -c.x. */
  lemma InitialBottomEquation(A: Matrix, b: seq<real>, c: seq<real>, x: seq<real>, s: seq<real>)
    requires WellFormedProgram(A, b, c) && |x| == |c| && |s| == |A|
    ensures Dot(Bottom(InitialTableau(A, b, c)), Point(x, s)) == -Dot(c, x)
  {
    var m := |A|;
    InitialRows(A, b, c);
    DotAppend(Negated(c), Zeros(m + 1), x, s + [-1.0]);
    DotNegatedFrom(c, x, 0);
    DotZerosFrom(m + 1, s + [-1.0], 0);
  }
}
