/**
 * The simplex tableau of a linear program "maximise c.x subject to A x <= b, x >= 0":
 * its shape, the initial tableau with one slack column per constraint, the column and
 * row labels, and the Gauss-Jordan pivot. Numbers are exact `real`s.
 */
module Tableau {

  /** A matrix as a sequence of rows. */
  type Matrix = seq<seq<real>>

  /**
   * Variable labels. `X(k)` is the structural variable x_k, `S(k)` the slack
   * variable s_k, `B` the right-hand-side column marker and `Z` the key under
   * which a solution reports the objective value.
   */
  datatype Name = X(k: nat) | S(k: nat) | B | Z

  /** Every row of `T` has exactly `w` entries. */
  ghost predicate Rectangular(T: Matrix, w: nat) {
    forall r :: 0 <= r < |T| ==> |T[r]| == w
  }

  /** The right-hand side of a row: its last entry. */
  function Rhs(row: seq<real>): real
    requires |row| > 0
  {
    row[|row| - 1]
  }

  /** The objective row: the last row. */
  function Bottom(T: Matrix): seq<real>
    requires |T| > 0
  {
    T[|T| - 1]
  }

  // ---------------------------------------------------------------------------
  // The initial tableau

  /** Row `i` of the `m` x `m` identity matrix. */
  function IdentityRow(i: nat, m: nat): (r: seq<real>)
    ensures |r| == m
    ensures forall k :: 0 <= k < m ==> r[k] == (if k == i then 1.0 else 0.0)
  {
    seq(m, k => if k == i then 1.0 else 0.0)
  }

  /** `k` zeros. */
  function Zeros(k: nat): (r: seq<real>)
    ensures |r| == k && forall q :: 0 <= q < k ==> r[q] == 0.0
  {
    seq(k, _ => 0.0)
  }

  /** The entrywise negation of `c`. */
  function Negated(c: seq<real>): (r: seq<real>)
    ensures |r| == |c| && forall k :: 0 <= k < |c| ==> r[k] == -c[k]
  {
    seq(|c|, k requires 0 <= k < |c| => -c[k])
  }

  /**
   * The initial tableau of the program (A, b, c): constraint row i is A[i], then
   * row i of the identity (the slack columns), then b[i]; the last row is -c
   * followed by |b| + 1 zeros.
   */
  function InitialTableau(A: Matrix, b: seq<real>, c: seq<real>): (T: Matrix)
    requires |b| == |A|
    ensures |T| == |A| + 1
    ensures forall i :: 0 <= i < |A| ==> |T[i]| == |A[i]| + |A| + 1
    ensures |T[|A|]| == |c| + |A| + 1
  {
    var T := seq(|A| + 1, i requires 0 <= i <= |A| =>
      if i < |A| then A[i] + IdentityRow(i, |A|) + [b[i]]
      else Negated(c) + Zeros(|b| + 1));
    assert T[|A|] == Negated(c) + Zeros(|b| + 1);
    T
  }

  /** A well-formed program: m >= 1 constraints over n = |c| variables. */
  ghost predicate WellFormedProgram(A: Matrix, b: seq<real>, c: seq<real>) {
    |A| >= 1 && |b| == |A| && Rectangular(A, |c|)
  }

  // ---------------------------------------------------------------------------
  // Labels

  /** x_1, ..., x_n. */
  function Structural(n: nat): (r: seq<Name>)
    ensures |r| == n && forall k :: 0 <= k < n ==> r[k] == X(k + 1)
  {
    seq(n, k requires 0 <= k < n => X(k + 1))
  }

  /** s_1, ..., s_m: the initial departing (basic) labels. */
  function SlackNames(m: nat): (r: seq<Name>)
    ensures |r| == m && forall k :: 0 <= k < m ==> r[k] == S(k + 1)
  {
    seq(m, k requires 0 <= k < m => S(k + 1))
  }

  /** x_1, ..., x_n, s_1, ..., s_m, b: one label per tableau column. */
  function EnteringNames(n: nat, m: nat): (r: seq<Name>)
    ensures |r| == n + m + 1 && r[n + m] == B
  {
    Structural(n) + SlackNames(m) + [B]
  }

  /** No label occurs twice. */
  ghost predicate Distinct(s: seq<Name>) {
    forall p, q :: 0 <= p < q < |s| ==> s[p] != s[q]
  }

  /** The position of the first occurrence of `x` in `s` (Python's `list.index`). */
  function IndexOf(s: seq<Name>, x: Name): (r: nat)
    requires x in s
    ensures r < |s| && s[r] == x
    ensures forall q :: 0 <= q < r ==> s[q] != x
  {
    if s[0] == x then 0 else 1 + IndexOf(s[1..], x)
  }

  // ---------------------------------------------------------------------------
  // The pivot

  /** Every entry of `row` divided by `p`. */
  function ScaleRow(row: seq<real>, p: real): (r: seq<real>)
    requires p != 0.0
    ensures |r| == |row|
  {
    seq(|row|, k requires 0 <= k < |row| => row[k] / p)
  }

  /** `row` minus `f` times `pr`, entry by entry. */
  function Eliminate(row: seq<real>, f: real, pr: seq<real>): (r: seq<real>)
    requires |pr| == |row|
    ensures |r| == |row|
  {
    seq(|row|, k requires 0 <= k < |row| => row[k] - pr[k] * f)
  }

  /** The pivot element `T[i][j]` can be pivoted on. */
  ghost predicate PivotAt(T: Matrix, i: int, j: int) {
    0 <= i < |T| && 0 <= j < |T[i]| && Rectangular(T, |T[i]|) && T[i][j] != 0.0
  }

  /**
   * Gauss-Jordan elimination on column `j` with pivot row `i`, row by row.
   */
  function PivotTableau(T: Matrix, i: int, j: int): (T': Matrix)
    requires PivotAt(T, i, j)
    ensures |T'| == |T| && Rectangular(T', |T[i]|)
  {
    seq(|T|, r requires 0 <= r < |T| => PivotRow(T, i, j, r))
  }

  /**
   * Row r after the pivot on (i, j): row i is divided by the pivot element, and
   * every other row loses T[r][j] times the new row i.
   */
  function PivotRow(T: Matrix, i: int, j: int, r: int): (row: seq<real>)
    requires PivotAt(T, i, j) && 0 <= r < |T|
    ensures |row| == |T[i]|
  {
    var pr := ScaleRow(T[i], T[i][j]);
    if r == i then pr else Eliminate(T[r], T[r][j], pr)
  }

  /** Column `j` of `T` is the `i`-th unit vector. */
  ghost predicate UnitColumn(T: Matrix, j: nat, i: nat) {
    forall r :: 0 <= r < |T| ==> j < |T[r]| && T[r][j] == (if r == i then 1.0 else 0.0)
  }

  /**
   * `dep` names the basic variable of each constraint row: the column of dep[i]
   * (its position among the column labels `ent`) is the i-th unit vector.
   */
  ghost predicate BasisUnit(T: Matrix, ent: seq<Name>, dep: seq<Name>) {
    forall i :: 0 <= i < |dep| ==> dep[i] in ent && UnitColumn(T, IndexOf(ent, dep[i]), i)
  }

  // ---------------------------------------------------------------------------
  // Lemmas

  /** The initial tableau has m + 1 rows of n + m + 1 entries. */
  lemma InitialTableauShape(A: Matrix, b: seq<real>, c: seq<real>)
    requires WellFormedProgram(A, b, c)
    ensures var T := InitialTableau(A, b, c);
      |T| == |A| + 1 && Rectangular(T, |c| + |A| + 1)
    ensures var T := InitialTableau(A, b, c);
      forall i :: 0 <= i < |A| ==> Rhs(T[i]) == b[i]
    ensures Rhs(Bottom(InitialTableau(A, b, c))) == 0.0
  {
    var T := InitialTableau(A, b, c);
    assert Bottom(T) == Negated(c) + Zeros(|b| + 1);
  }

  /** The rows of the initial tableau, one by one. */
  lemma InitialRows(A: Matrix, b: seq<real>, c: seq<real>)
    requires |b| == |A|
    ensures var T := InitialTableau(A, b, c);
      forall i :: 0 <= i < |A| ==> T[i] == A[i] + IdentityRow(i, |A|) + [b[i]]
    ensures Bottom(InitialTableau(A, b, c)) == Negated(c) + Zeros(|b| + 1)
  {
  }

  /** The column labels are pairwise distinct. */
  lemma EnteringNamesDistinct(n: nat, m: nat)
    ensures |EnteringNames(n, m)| == n + m + 1
    ensures Distinct(EnteringNames(n, m))
  {
    var e := EnteringNames(n, m);
    forall p, q | 0 <= p < q < |e| ensures e[p] != e[q] {
      if q < n {
      } else if q < n + m {
        assert e[q] == S(q - n + 1);
      } else {
        assert e[q] == B;
      }
    }
  }

  /** In a sequence without repetitions the first occurrence of s[p] is p. */
  lemma IndexOfDistinct(s: seq<Name>, p: nat)
    requires Distinct(s) && p < |s|
    ensures IndexOf(s, s[p]) == p
  {
  }

  /** Initially the slack variable s_{i+1} is basic in row i: its column is a unit vector. */
  lemma InitialBasis(A: Matrix, b: seq<real>, c: seq<real>)
    requires WellFormedProgram(A, b, c)
    ensures BasisUnit(InitialTableau(A, b, c), EnteringNames(|c|, |A|), SlackNames(|A|))
  {
    var n, m := |c|, |A|;
    var T, ent, dep := InitialTableau(A, b, c), EnteringNames(n, m), SlackNames(m);
    EnteringNamesDistinct(n, m);
    forall i | 0 <= i < m ensures dep[i] in ent && UnitColumn(T, IndexOf(ent, dep[i]), i) {
      assert ent[n + i] == S(i + 1) == dep[i];
      IndexOfDistinct(ent, n + i);
      forall r | 0 <= r <= m ensures n + i < |T[r]| && T[r][n + i] == (if r == i then 1.0 else 0.0) {
        if r < m {
          assert T[r] == A[r] + IdentityRow(r, m) + [b[r]];
          assert T[r][n + i] == IdentityRow(r, m)[i];
        } else {
          assert T[r] == Negated(c) + Zeros(m + 1);
        }
      }
    }
  }

  /** After a pivot on (i, j), column j is the i-th unit vector. */
  lemma PivotUnitColumn(T: Matrix, i: int, j: int)
    requires PivotAt(T, i, j)
    ensures UnitColumn(PivotTableau(T, i, j), j, i)
  {
    var T' := PivotTableau(T, i, j);
    var p := T[i][j];
    assert T'[i][j] == p / p == 1.0;
    forall r | 0 <= r < |T| && r != i ensures T'[r][j] == 0.0 {
      calc {
        T'[r][j];
        T[r][j] - T'[i][j] * T[r][j];
        T[r][j] - 1.0 * T[r][j];
        0.0;
      }
    }
  }

  /**
   * A unit column other than the pivot row's survives the pivot: if column k is
   * the unit vector of row q != i, it still is afterwards.
   */
  lemma PivotKeepsUnitColumn(T: Matrix, i: int, j: int, k: nat, q: nat)
    requires PivotAt(T, i, j) && q != i && UnitColumn(T, k, q)
    ensures UnitColumn(PivotTableau(T, i, j), k, q)
  {
    var T' := PivotTableau(T, i, j);
    assert T[i][k] == 0.0;
    assert T'[i][k] == 0.0 / T[i][j] == 0.0;
    forall r | 0 <= r < |T| && r != i ensures T'[r][k] == T[r][k] {
      assert T'[r][k] == T[r][k] - T'[i][k] * T[r][j];
    }
  }

  /**
   * Pivoting on (i, j) and making ent[j] the basic variable of row i keeps every
   * row's label naming a unit column.
   */
  lemma PivotKeepsBasis(T: Matrix, ent: seq<Name>, dep: seq<Name>, i: int, j: int)
    requires PivotAt(T, i, j) && i < |dep| && j < |ent| && Distinct(ent)
    requires BasisUnit(T, ent, dep)
    ensures BasisUnit(PivotTableau(T, i, j), ent, dep[i := ent[j]])
  {
    var T', dep' := PivotTableau(T, i, j), dep[i := ent[j]];
    forall q | 0 <= q < |dep'| ensures dep'[q] in ent && UnitColumn(T', IndexOf(ent, dep'[q]), q) {
      if q == i {
        IndexOfDistinct(ent, j);
        PivotUnitColumn(T, i, j);
      } else {
        PivotKeepsUnitColumn(T, i, j, IndexOf(ent, dep[q]), q);
      }
    }
  }

  /** Rows of a tableau whose labels name unit columns carry distinct labels. */
  lemma BasisDistinct(T: Matrix, ent: seq<Name>, dep: seq<Name>)
    requires BasisUnit(T, ent, dep) && |dep| <= |T|
    ensures Distinct(dep)
  {
    forall p, q | 0 <= p < q < |dep| ensures dep[p] != dep[q] {
      var kp, kq := IndexOf(ent, dep[p]), IndexOf(ent, dep[q]);
      assert T[p][kp] == 1.0;
      assert T[p][kq] == 0.0;
    }
  }
}
