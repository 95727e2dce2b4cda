/**
 * The pivot-selection rules of the solver: the termination test on the objective
 * row, the entering column (the most negative objective-row entry, first
 * occurrence) and the departing row (a two-pass minimum-ratio test).
 */
module PivotRules {
  import opened Tableau

  // ---------------------------------------------------------------------------
  // Termination test

  /**
   * No entry of the objective row is negative, the right-hand-side column aside.
   * When the test fails, the objective row has a column besides the right-hand
   * side and the entering column's entry is negative.
   */
  ghost predicate IsOptimal(T: Matrix)
    requires |T| > 0
    ensures !IsOptimal(T) ==> |Bottom(T)| > 1 && Bottom(T)[EnteringCol(T)] < 0.0
  {
    var opt := forall k :: 0 <= k < |Bottom(T)| - 1 ==> Bottom(T)[k] >= 0.0;
    if opt then true else EnteringColSpec(T); false
  }

  // ---------------------------------------------------------------------------
  // Entering column

  /** `k` is the first position of a minimum of row[..n]. */
  ghost predicate FirstMinUpTo(row: seq<real>, k: int, n: int) {
    0 <= k < n <= |row| &&
    (forall q :: 0 <= q < n ==> row[k] <= row[q]) &&
    (forall q :: 0 <= q < k ==> row[k] < row[q])
  }

  /** `k` is the first position of a minimum of the whole row. */
  ghost predicate IsFirstMin(row: seq<real>, k: int) {
    FirstMinUpTo(row, k, |row|)
  }

  /**
   * The scan of the row from position `from` on, with `best` the position of the
   * most negative value so far: a later value replaces it only when strictly smaller.
   */
  function ArgMinFrom(row: seq<real>, best: nat, from: nat): (k: nat)
    requires best < |row| && from <= |row|
    ensures k < |row|
    ensures k == best || from <= k
    decreases |row| - from
  {
    if from == |row| then best
    else ArgMinFrom(row, if row[from] < row[best] then from else best, from + 1)
  }

  /** The entering column: the scan starting at position 0 with `best` = 0. */
  function EnteringCol(T: Matrix): (k: nat)
    requires |T| > 0 && |Bottom(T)| > 0
    ensures k < |Bottom(T)|
  {
    ArgMinFrom(Bottom(T), 0, 0)
  }

  lemma {:induction false} ArgMinFromSpec(row: seq<real>, best: nat, from: nat)
    requires 0 < from <= |row| && FirstMinUpTo(row, best, from)
    ensures IsFirstMin(row, ArgMinFrom(row, best, from))
    decreases |row| - from
  {
    if from < |row| {
      var best' := if row[from] < row[best] then from else best;
      assert FirstMinUpTo(row, best', from + 1);
      ArgMinFromSpec(row, best', from + 1);
    }
  }

  /**
   * The entering column holds a value no larger than any other objective-row
   * entry (the right-hand side included) and strictly smaller than every entry
   * to its left.
   */
  lemma EnteringColSpec(T: Matrix)
    requires |T| > 0 && |Bottom(T)| > 0
    ensures IsFirstMin(Bottom(T), EnteringCol(T))
  {
    var row := Bottom(T);
    assert ArgMinFrom(row, 0, 0) == ArgMinFrom(row, 0, 1);
    ArgMinFromSpec(row, 0, 1);
  }

  // ---------------------------------------------------------------------------
  // Departing row

  /** Column `e` exists in every row. */
  ghost predicate Covers(T: Matrix, e: int) {
    0 <= e && forall r :: 0 <= r < |T| ==> e < |T[r]|
  }

  /** The right-hand side of row r over its entry in column e. */
  function Ratio(T: Matrix, e: int, r: int): real
    requires 0 <= r < |T| && 0 <= e < |T[r]| && T[r][e] != 0.0
  {
    Rhs(T[r]) / T[r][e]
  }

  /** Row r passes the first-pass test: a nonzero entry and a positive ratio. */
  ghost predicate Hit(T: Matrix, e: int, r: int) {
    0 <= r < |T| && 0 <= e < |T[r]| && T[r][e] != 0.0 && Ratio(T, e, r) > 0.0
  }

  /** The first row from `from` on that passes the first-pass test, or -1. */
  function FirstHit(T: Matrix, e: int, from: nat): (r: int)
    requires Covers(T, e) && from <= |T|
    ensures r == -1 || (from <= r < |T| && Hit(T, e, r))
    decreases |T| - from
  {
    if from == |T| then -1
    else if T[from][e] != 0.0 && Ratio(T, e, from) > 0.0 then from
    else FirstHit(T, e, from + 1)
  }

  /** No row between `from` and the first hit passes the first-pass test. */
  lemma {:induction false} FirstHitIsFirst(T: Matrix, e: int, from: nat)
    requires Covers(T, e) && from <= |T|
    ensures var r := FirstHit(T, e, from);
      forall q :: from <= q < |T| && (r == -1 || q < r) ==> !Hit(T, e, q)
    decreases |T| - from
  {
    if from < |T| {
      FirstHitIsFirst(T, e, from + 1);
    }
  }

  /**
   * The second pass from row `from` on: `best` is replaced by a row with a
   * positive entry whose ratio is strictly smaller.
   */
  function RefineMin(T: Matrix, e: int, best: nat, from: nat): (r: nat)
    requires Covers(T, e) && best < |T| && T[best][e] != 0.0 && from <= |T|
    ensures r < |T| && T[r][e] != 0.0
    ensures r == best || (from <= r && T[r][e] > 0.0)
    decreases |T| - from
  {
    if from == |T| then best
    else
      var best' := if T[from][e] > 0.0 && Ratio(T, e, best) > Ratio(T, e, from) then from else best;
      RefineMin(T, e, best', from + 1)
  }

  /** One step of the second pass. */
  lemma RefineMinStep(T: Matrix, e: int, best: nat, from: nat)
    requires Covers(T, e) && best < |T| && T[best][e] != 0.0 && from < |T|
    ensures RefineMin(T, e, best, from) ==
      RefineMin(T, e, if T[from][e] > 0.0 && Ratio(T, e, best) > Ratio(T, e, from) then from else best, from + 1)
  {
  }

  /** The departing row for entering column `e`, or -1 when none exists. */
  function DepartingRow(T: Matrix, e: int): (d: int)
    requires Covers(T, e)
    ensures d == -1 || (0 <= d < |T| && T[d][e] != 0.0)
  {
    var r0 := FirstHit(T, e, 0);
    if r0 < 0 then -1 else RefineMin(T, e, r0, r0 + 1)
  }

  /**
   * Row q takes part in the second pass anchored at the first hit r0: it is r0
   * itself or a later row with a positive entry.
   */
  ghost predicate Candidate(T: Matrix, e: int, r0: int, q: int) {
    0 <= r0 <= q < |T| && 0 <= e < |T[q]| && T[q][e] != 0.0 && (q == r0 || T[q][e] > 0.0)
  }

  /**
   * Among the candidates below row n, d has the least ratio and is the earliest
   * row with that ratio.
   */
  ghost predicate MinRatioUpTo(T: Matrix, e: int, r0: int, d: int, n: int) {
    d < n && Candidate(T, e, r0, d) &&
    forall q :: q < n && Candidate(T, e, r0, q) ==>
      Ratio(T, e, d) <= Ratio(T, e, q) && (q < d ==> Ratio(T, e, d) < Ratio(T, e, q))
  }

  lemma {:induction false} RefineMinSpec(T: Matrix, e: int, r0: nat, best: nat, from: nat)
    requires Covers(T, e) && r0 < from <= |T| && MinRatioUpTo(T, e, r0, best, from)
    ensures MinRatioUpTo(T, e, r0, RefineMin(T, e, best, from), |T|)
    decreases |T| - from
  {
    if from < |T| {
      var best' := if T[from][e] > 0.0 && Ratio(T, e, best) > Ratio(T, e, from) then from else best;
      assert MinRatioUpTo(T, e, r0, best', from + 1);
      RefineMinSpec(T, e, r0, best', from + 1);
    }
  }

  /**
   * The departing row is -1 exactly when no row passes the first-pass test;
   * otherwise it is the earliest row of least ratio among the first hit r0 and
   * the later rows with a positive entry.
   */
  lemma DepartingRowSpec(T: Matrix, e: int)
    requires Covers(T, e)
    ensures DepartingRow(T, e) == -1 <==> forall r :: 0 <= r < |T| ==> !Hit(T, e, r)
    ensures DepartingRow(T, e) >= 0 ==>
      MinRatioUpTo(T, e, FirstHit(T, e, 0), DepartingRow(T, e), |T|)
  {
    var r0 := FirstHit(T, e, 0);
    FirstHitIsFirst(T, e, 0);
    if r0 >= 0 {
      assert MinRatioUpTo(T, e, r0, r0, r0 + 1);
      RefineMinSpec(T, e, r0, r0, r0 + 1);
    }
  }

  // ---------------------------------------------------------------------------
  // The textbook ratio test, and the choice between the two rules

  /** Constraint row r (not the objective row) has a positive entry in column e. */
  ghost predicate Eligible(T: Matrix, e: int, r: int) {
    0 <= r < |T| - 1 && 0 <= e < |T[r]| && T[r][e] > 0.0
  }

  /**
   * The scan of the constraint rows from `from` on, with `best` the eligible row
   * of least ratio so far (-1 for none yet): a later eligible row replaces it
   * only when its ratio is strictly smaller.
   */
  function LeastRatioFrom(T: Matrix, e: int, best: int, from: nat): (d: int)
    requires Covers(T, e) && from <= |T| && (best == -1 || Eligible(T, e, best))
    ensures d == -1 || Eligible(T, e, d)
    ensures best != -1 ==> d != -1
    decreases |T| - from
  {
    if from + 1 >= |T| then best
    else if T[from][e] > 0.0 && (best == -1 || Ratio(T, e, from) < Ratio(T, e, best)) then
      LeastRatioFrom(T, e, from, from + 1)
    else LeastRatioFrom(T, e, best, from + 1)
  }

  /** The textbook departing row: the first eligible row of least ratio, or -1. */
  function TextbookRow(T: Matrix, e: int): (d: int)
    requires Covers(T, e)
    ensures d == -1 || Eligible(T, e, d)
  {
    LeastRatioFrom(T, e, -1, 0)
  }

  /** Among the eligible rows below n, d has the least ratio and is the first with it. */
  ghost predicate LeastRatioUpTo(T: Matrix, e: int, d: int, n: int) {
    d < n && Eligible(T, e, d) &&
    forall q :: q < n && Eligible(T, e, q) ==>
      Ratio(T, e, d) <= Ratio(T, e, q) && (q < d ==> Ratio(T, e, d) < Ratio(T, e, q))
  }

  lemma {:induction false} LeastRatioFromSpec(T: Matrix, e: int, best: int, from: nat)
    requires Covers(T, e) && from <= |T| && (best == -1 || Eligible(T, e, best))
    requires best == -1 ==> forall q :: q < from ==> !Eligible(T, e, q)
    requires best != -1 ==> LeastRatioUpTo(T, e, best, from)
    ensures var d := LeastRatioFrom(T, e, best, from);
      && (d == -1 ==> forall q :: !Eligible(T, e, q))
      && (d != -1 ==> LeastRatioUpTo(T, e, d, |T|))
    decreases |T| - from
  {
    if from + 1 < |T| {
      if T[from][e] > 0.0 && (best == -1 || Ratio(T, e, from) < Ratio(T, e, best)) {
        assert LeastRatioUpTo(T, e, from, from + 1);
        LeastRatioFromSpec(T, e, from, from + 1);
      } else {
        assert best != -1 ==> LeastRatioUpTo(T, e, best, from + 1);
        LeastRatioFromSpec(T, e, best, from + 1);
      }
    }
  }

  /**
   * The textbook departing row is -1 exactly when no constraint row has a
   * positive entry in column e; otherwise it is the first such row of least ratio.
   */
  lemma TextbookRowSpec(T: Matrix, e: int)
    requires Covers(T, e)
    ensures TextbookRow(T, e) == -1 <==> forall q :: !Eligible(T, e, q)
    ensures TextbookRow(T, e) != -1 ==> LeastRatioUpTo(T, e, TextbookRow(T, e), |T|)
  {
    LeastRatioFromSpec(T, e, -1, 0);
  }

  /** Which departing-row rule a run uses: the solver's own, or the textbook one. */
  datatype RatioRule = AsWritten | Textbook

  /** The departing row under a rule, or -1 when the rule finds none. */
  function ChooseRow(rule: RatioRule, T: Matrix, e: int): (d: int)
    requires Covers(T, e)
    ensures d == -1 || (0 <= d < |T| && T[d][e] != 0.0)
    ensures rule == Textbook && d != -1 ==> Eligible(T, e, d)
  {
    match rule
    case AsWritten => DepartingRow(T, e)
    case Textbook => TextbookRow(T, e)
  }

  /** A positive value over a nonzero entry is positive exactly when the entry is. */
  lemma QuotientSign(a: real, p: real)
    requires p != 0.0
    ensures a > 0.0 ==> (a / p > 0.0 <==> p > 0.0)
    ensures a >= 0.0 && p < 0.0 ==> a / p <= 0.0
  {
    if p < 0.0 {
      assert a / p == -(a / -p);
    }
  }

  /** At most one row is the first eligible row of least ratio. */
  lemma LeastRatioUnique(T: Matrix, e: int, d: int, d': int)
    requires LeastRatioUpTo(T, e, d, |T|) && LeastRatioUpTo(T, e, d', |T|)
    ensures d == d'
  {
  }

  /**
   * Without degeneracy the two rules agree: when every constraint row has a
   * positive right-hand side, the objective row a nonnegative one, and the
   * entering column a negative objective-row entry, the solver's two-pass test
   * picks the textbook row.
   */
  lemma RulesAgreeWithoutDegeneracy(T: Matrix, e: int)
    requires |T| > 0 && Covers(T, e) && Bottom(T)[e] < 0.0
    requires forall r :: 0 <= r < |T| ==> |T[r]| > 0
    requires Rhs(Bottom(T)) >= 0.0 && forall r :: 0 <= r < |T| - 1 ==> Rhs(T[r]) > 0.0
    ensures ChooseRow(AsWritten, T, e) == ChooseRow(Textbook, T, e)
  {
    forall r | 0 <= r < |T| && T[r][e] != 0.0 ensures Hit(T, e, r) <==> Eligible(T, e, r) {
      QuotientSign(Rhs(T[r]), T[r][e]);
    }
    DepartingRowSpec(T, e);
    TextbookRowSpec(T, e);
    var r0, d := FirstHit(T, e, 0), DepartingRow(T, e);
    FirstHitIsFirst(T, e, 0);
    if d != -1 {
      assert Eligible(T, e, r0);
      forall q | Eligible(T, e, q) ensures Candidate(T, e, r0, q) {
        assert Hit(T, e, q);
      }
      assert LeastRatioUpTo(T, e, d, |T|);
      LeastRatioUnique(T, e, d, TextbookRow(T, e));
    }
  }
}
