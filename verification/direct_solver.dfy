/** Direct solution of A x = b (components/LinearSystemSolver.tsx, solveDirect):
    Gauss elimination, Gauss elimination with the largest pivot, and Gauss-Jordan,
    each recording a snapshot of the matrix after every swap, normalisation and
    elimination. */
module DirectSolver {
  import opened Common
  import opened Elimination

  /** |value| below this is treated as zero by the linear-system solver. */
  const Eps: real := 0.0000000001

  datatype Method = Gauss | MaxPivot | GaussJordan

  datatype StepKind =
    | Initial
    | Swap(column: nat, withRow: nat)
    | Normalize(row: nat)
    | Eliminate(column: nat, row: nat)
    | EchelonForm
    | ReducedEchelonForm

  /** One recorded step: what was done and a copy of the matrix right after it. */
  datatype Step = Step(kind: StepKind, snapshot: Matrix)

  /** A matrix together with the steps that produced it. */
  datatype Stage = Stage(matrix: Matrix, steps: seq<Step>)

  datatype Solution = Solution(x: seq<real>, steps: seq<Step>, reduced: Matrix)

  /** Rows r < k and columns c < k hold the same entries in both matrices. */
  predicate TopLeftKept(m: Matrix, u: Matrix, n: nat, k: nat)
    requires Augmented(m, n) && Augmented(u, n) && k <= n
  {
    forall r, c :: 0 <= r < k && 0 <= c < k ==> u[r][c] == m[r][c]
  }

  /** The coefficient part of the matrix is exactly the identity. */
  predicate IdentityPart(u: Matrix, n: nat)
    requires Augmented(u, n)
  {
    forall i, j :: 0 <= i < n && 0 <= j < n ==> u[i][j] == (if i == j then 1.0 else 0.0)
  }

  // ---------------------------------------------------------------- pivot choice

  /** Plain Gauss / Gauss-Jordan: the first row r >= i with |m[r][k]| > Eps, or k if none. */
  function FirstUsable(m: Matrix, k: nat, i: nat): (p: nat)
    requires k < i <= |m| && forall r :: 0 <= r < |m| ==> k < |m[r]|
    ensures p == k || (i <= p < |m| && Abs(m[p][k]) > Eps)
    ensures p == k ==> forall r :: i <= r < |m| ==> Abs(m[r][k]) <= Eps
    ensures p != k ==> forall r :: i <= r < p ==> Abs(m[r][k]) <= Eps
    decreases |m| - i
  {
    if i == |m| then k
    else if Abs(m[i][k]) > Eps then i
    else FirstUsable(m, k, i + 1)
  }

  /** The row that becomes the pivot row for column k. */
  function PivotRow(how: Method, m: Matrix, n: nat, k: nat): (p: nat)
    requires Augmented(m, n) && k < n
    ensures k <= p < n
    ensures how == MaxPivot ==> forall r :: k <= r < n ==> Abs(m[r][k]) <= Abs(m[p][k])
    ensures how == MaxPivot ==> forall r :: k <= r < p ==> Abs(m[r][k]) < Abs(m[p][k])
    ensures how != MaxPivot ==>
      (p != k <==> Abs(m[k][k]) < Eps && exists r :: k < r < n && Abs(m[r][k]) > Eps)
    ensures how != MaxPivot && p != k ==>
      Abs(m[p][k]) > Eps && forall r :: k < r < p ==> Abs(m[r][k]) <= Eps
  {
    if how == MaxPivot then MaxPivotRow(m, k)
    else if Abs(m[k][k]) < Eps then FirstUsable(m, k, k + 1)
    else k
  }

  // ---------------------------------------------------------------- elimination

  /** The Gauss update of a row below the pivot: columns >= k lose factor * pivot row,
      then column k is set to exactly zero. */
  function GaussRow(row: seq<real>, pivotRow: seq<real>, k: nat, factor: real): seq<real>
    requires |pivotRow| == |row| && k < |row|
  {
    SubtractFrom(row, pivotRow, k, factor)[k := 0.0]
  }

  /** The rows of i .. n-1 whose Gauss factor m[r][k] / m[k][k] exceeds Eps in magnitude,
      in increasing order: the rows the Gauss update changes. */
  function RowsBelow(m: Matrix, n: nat, k: nat, i: nat): (rs: seq<nat>)
    requires Augmented(m, n) && k < i <= n && m[k][k] != 0.0
    ensures forall t :: 0 <= t < |rs| ==> i <= rs[t] < n && Abs(m[rs[t]][k] / m[k][k]) > Eps
    ensures forall a, b :: 0 <= a < b < |rs| ==> rs[a] < rs[b]
    decreases n - i
  {
    if i == n then []
    else if Abs(m[i][k] / m[k][k]) > Eps then [i] + RowsBelow(m, n, k, i + 1)
    else RowsBelow(m, n, k, i + 1)
  }

  /** A row is listed exactly when it lies in i .. n-1 and its Gauss factor exceeds Eps. */
  lemma {:induction false} RowsBelowExact(m: Matrix, n: nat, k: nat, i: nat, r: nat)
    requires Augmented(m, n) && k < i <= n && m[k][k] != 0.0
    ensures r in RowsBelow(m, n, k, i) <==> i <= r < n && Abs(m[r][k] / m[k][k]) > Eps
    decreases n - i
  {
    if i < n {
      var rest := RowsBelow(m, n, k, i + 1);
      RowsBelowExact(m, n, k, i + 1, r);
      if Abs(m[i][k] / m[k][k]) > Eps {
        assert RowsBelow(m, n, k, i) == [i] + rest;
        assert r in [i] + rest <==> r == i || r in rest;
      } else {
        assert RowsBelow(m, n, k, i) == rest;
      }
    }
  }

  /** The rows listed depend only on column k of the pivot row and of rows i.. . */
  lemma {:induction false} RowsBelowFrame(m: Matrix, m': Matrix, n: nat, k: nat, i: nat)
    requires Augmented(m, n) && Augmented(m', n) && k < i <= n && m[k][k] != 0.0
    requires m'[k][k] == m[k][k] && forall r :: i <= r < n ==> m'[r][k] == m[r][k]
    ensures RowsBelow(m', n, k, i) == RowsBelow(m, n, k, i)
    decreases n - i
  {
    if i < n {
      RowsBelowFrame(m, m', n, k, i + 1);
    }
  }

  /** Eliminate column k from rows i.. below the pivot; a row whose factor has
      |factor| <= Eps is skipped. */
  function EliminateBelow(m: Matrix, n: nat, k: nat, i: nat): (s: Stage)
    requires Augmented(m, n) && k < i <= n && m[k][k] != 0.0
    ensures Augmented(s.matrix, n)
    ensures forall r :: 0 <= r < i ==> s.matrix[r] == m[r]
    ensures forall r :: i <= r < n ==>
      s.matrix[r] == (if Abs(m[r][k] / m[k][k]) > Eps then GaussRow(m[r], m[k], k, m[r][k] / m[k][k]) else m[r])
    ensures forall r :: i <= r < n ==>
      s.matrix[r][k] == 0.0 || Abs(s.matrix[r][k]) <= Eps * Abs(m[k][k])
    ensures forall r, c :: 0 <= r < n && 0 <= c < k ==> s.matrix[r][c] == m[r][c]
    ensures forall t :: 0 <= t < |s.steps| ==> s.steps[t].kind.Eliminate? && s.steps[t].kind.column == k
    decreases n - i
  {
    if i == n then Stage(m, [])
    else
      var factor := m[i][k] / m[k][k];
      if Abs(factor) > Eps then
        var m1 := m[i := GaussRow(m[i], m[k], k, factor)];
        var rest := EliminateBelow(m1, n, k, i + 1);
        Stage(rest.matrix, [Step(Eliminate(k, i), m1)] + rest.steps)
      else
        SkipBound(m[i][k], m[k][k]);
        EliminateBelow(m, n, k, i + 1)
  }

  /** The trace of the Gauss elimination of column k records one Eliminate(k, r) step per
      updated row r, in increasing r, each holding the matrix just after row r changed. */
  lemma {:induction false} EliminateBelowSteps(m: Matrix, n: nat, k: nat, i: nat)
    requires Augmented(m, n) && k < i <= n && m[k][k] != 0.0
    ensures Traced(m, EliminateBelow(m, n, k, i), RowsBelow(m, n, k, i), n, k)
    decreases n - i, 1
  {
    if i == n {
      assert EliminateBelow(m, n, k, i) == Stage(m, []) && RowsBelow(m, n, k, i) == [];
    } else if Abs(m[i][k] / m[k][k]) > Eps {
      UpdatedRowSteps(m, n, k, i);
    } else {
      EliminateBelowSteps(m, n, k, i + 1);
      assert EliminateBelow(m, n, k, i) == EliminateBelow(m, n, k, i + 1);
      assert RowsBelow(m, n, k, i) == RowsBelow(m, n, k, i + 1);
    }
  }

  /** The case of EliminateBelowSteps where row i is updated. */
  lemma {:induction false} UpdatedRowSteps(m: Matrix, n: nat, k: nat, i: nat)
    requires Augmented(m, n) && k < i < n && m[k][k] != 0.0 && Abs(m[i][k] / m[k][k]) > Eps
    ensures Traced(m, EliminateBelow(m, n, k, i), RowsBelow(m, n, k, i), n, k)
    decreases n - i, 0
  {
    var factor := m[i][k] / m[k][k];
    var m1 := m[i := GaussRow(m[i], m[k], k, factor)];
    var rest := EliminateBelow(m1, n, k, i + 1);
    var rs := RowsBelow(m1, n, k, i + 1);
    assert Traced(m1, rest, rs, n, k) by {
      EliminateBelowSteps(m1, n, k, i + 1);
    }
    assert RowsBelow(m, n, k, i) == [i] + rs by {
      RowsBelowFrame(m, m1, n, k, i + 1);
    }
    StepsCons(m, m1, rest, n, k, i, rs);
    assert EliminateBelow(m, n, k, i) == Stage(rest.matrix, [Step(Eliminate(k, i), m1)] + rest.steps);
  }

  /** The steps of s record, for each row rs[t] in turn, an Eliminate(k, rs[t]) step whose
      snapshot is m with rows up to rs[t] already in their final form. */
  predicate Traced(m: Matrix, s: Stage, rs: seq<nat>, n: nat, k: nat)
    requires |m| == |s.matrix| == n
  {
    && |s.steps| == |rs|
    && (forall t :: 0 <= t < |rs| ==> s.steps[t].kind == Eliminate(k, rs[t]))
    && (forall t :: 0 <= t < |rs| && rs[t] < n ==>
          s.steps[t].snapshot == s.matrix[..rs[t] + 1] + m[rs[t] + 1..])
  }

  /** Prepending the step that updated row i to a trace of later rows keeps the trace shape. */
  lemma {:induction false} StepsCons(m: Matrix, m1: Matrix, rest: Stage, n: nat, k: nat, i: nat, rs: seq<nat>)
    requires |m| == |m1| == |rest.matrix| == n && i < n
    requires forall q :: 0 <= q < n && q != i ==> m1[q] == m[q]
    requires forall q :: 0 <= q <= i ==> rest.matrix[q] == m1[q]
    requires forall t :: 0 <= t < |rs| ==> i < rs[t] < n
    requires Traced(m1, rest, rs, n, k)
    ensures Traced(m, Stage(rest.matrix, [Step(Eliminate(k, i), m1)] + rest.steps), [i] + rs, n, k)
  {
    var steps := [Step(Eliminate(k, i), m1)] + rest.steps;
    var rows := [i] + rs;
    assert m1 == rest.matrix[..i + 1] + m[i + 1..];
    forall t | 0 < t < |rows|
      ensures steps[t].snapshot == rest.matrix[..rows[t] + 1] + m[rows[t] + 1..]
    {
      assert steps[t] == rest.steps[t - 1] && rows[t] == rs[t - 1];
      assert m1[rs[t - 1] + 1..] == m[rs[t - 1] + 1..];
    }
  }


  /** A skipped row's entry is small relative to the pivot. */
  lemma {:induction false} SkipBound(a: real, p: real)
    requires p != 0.0 && Abs(a / p) <= Eps
    ensures Abs(a) <= Eps * Abs(p)
  {
    var f := a / p;
    assert a == f * p;
    AbsMul(f, p);
    assert Abs(f) * Abs(p) <= Eps * Abs(p);
  }

  /** The rows of i .. n-1 other than k whose entry in column k exceeds Eps in magnitude,
      in increasing order: the rows the Gauss-Jordan update changes. */
  function RowsOthers(m: Matrix, n: nat, k: nat, i: nat): (rs: seq<nat>)
    requires Augmented(m, n) && k < n && i <= n
    ensures forall t :: 0 <= t < |rs| ==> i <= rs[t] < n && rs[t] != k && Abs(m[rs[t]][k]) > Eps
    ensures forall a, b :: 0 <= a < b < |rs| ==> rs[a] < rs[b]
    decreases n - i
  {
    if i == n then []
    else if i != k && Abs(m[i][k]) > Eps then [i] + RowsOthers(m, n, k, i + 1)
    else RowsOthers(m, n, k, i + 1)
  }

  /** A row is listed exactly when it lies in i .. n-1, is not the pivot row and its entry
      in column k exceeds Eps. */
  lemma {:induction false} RowsOthersExact(m: Matrix, n: nat, k: nat, i: nat, r: nat)
    requires Augmented(m, n) && k < n && i <= n
    ensures r in RowsOthers(m, n, k, i) <==> i <= r < n && r != k && Abs(m[r][k]) > Eps
    decreases n - i
  {
    if i < n {
      var rest := RowsOthers(m, n, k, i + 1);
      RowsOthersExact(m, n, k, i + 1, r);
      if i != k && Abs(m[i][k]) > Eps {
        assert RowsOthers(m, n, k, i) == [i] + rest;
        assert r in [i] + rest <==> r == i || r in rest;
      } else {
        assert RowsOthers(m, n, k, i) == rest;
      }
    }
  }

  /** The rows listed depend only on column k of the pivot row and of rows i.. . */
  lemma {:induction false} RowsOthersFrame(m: Matrix, m': Matrix, n: nat, k: nat, i: nat)
    requires Augmented(m, n) && Augmented(m', n) && k < n && i <= n
    requires forall r :: i <= r < n ==> m'[r][k] == m[r][k]
    ensures RowsOthers(m', n, k, i) == RowsOthers(m, n, k, i)
    decreases n - i
  {
    if i < n {
      RowsOthersFrame(m, m', n, k, i + 1);
    }
  }

  /** Gauss-Jordan: eliminate column k from every row other than k, rows i.. onward. */
  function EliminateOthers(m: Matrix, n: nat, k: nat, i: nat): (s: Stage)
    requires Augmented(m, n) && k < n && i <= n
    ensures Augmented(s.matrix, n)
    ensures s.matrix[k] == m[k]
    ensures forall r :: 0 <= r < i ==> s.matrix[r] == m[r]
    ensures forall r :: i <= r < n && r != k ==>
      s.matrix[r] == (if Abs(m[r][k]) > Eps then SubtractFrom(m[r], m[k], k, m[r][k]) else m[r])
    ensures forall r, c :: 0 <= r < n && 0 <= c < k ==> s.matrix[r][c] == m[r][c]
    ensures forall t :: 0 <= t < |s.steps| ==> s.steps[t].kind.Eliminate? && s.steps[t].kind.column == k
    decreases n - i
  {
    if i == n then Stage(m, [])
    else if i != k && Abs(m[i][k]) > Eps then
      var m1 := m[i := SubtractFrom(m[i], m[k], k, m[i][k])];
      var rest := EliminateOthers(m1, n, k, i + 1);
      Stage(rest.matrix, [Step(Eliminate(k, i), m1)] + rest.steps)
    else
      EliminateOthers(m, n, k, i + 1)
  }

  /** The trace of the Gauss-Jordan elimination of column k records one Eliminate(k, r) step
      per updated row r, in increasing r, each holding the matrix just after row r changed. */
  lemma {:induction false} EliminateOthersSteps(m: Matrix, n: nat, k: nat, i: nat)
    requires Augmented(m, n) && k < n && i <= n
    ensures Traced(m, EliminateOthers(m, n, k, i), RowsOthers(m, n, k, i), n, k)
    decreases n - i
  {
    if i < n {
      if i != k && Abs(m[i][k]) > Eps {
        var m1 := m[i := SubtractFrom(m[i], m[k], k, m[i][k])];
        var rest := EliminateOthers(m1, n, k, i + 1);
        EliminateOthersSteps(m1, n, k, i + 1);
        RowsOthersFrame(m, m1, n, k, i + 1);
        var rs := RowsOthers(m1, n, k, i + 1);
        assert EliminateOthers(m, n, k, i) == Stage(rest.matrix, [Step(Eliminate(k, i), m1)] + rest.steps);
        assert RowsOthers(m, n, k, i) == [i] + rs;
        StepsCons(m, m1, rest, n, k, i, rs);
      } else {
        assert EliminateOthers(m, n, k, i) == EliminateOthers(m, n, k, i + 1);
        assert RowsOthers(m, n, k, i) == RowsOthers(m, n, k, i + 1);
        EliminateOthersSteps(m, n, k, i + 1);
      }
    }
  }

  /** The matrix after the pivot swap of column k (no swap when the pivot row is k). */
  function Pivoted(how: Method, m: Matrix, n: nat, k: nat): (r: Matrix)
    requires Augmented(m, n) && k < n
    ensures Augmented(r, n)
    ensures r[k] == m[PivotRow(how, m, n, k)]
    ensures forall t :: 0 <= t < k ==> r[t] == m[t]
  {
    var p := PivotRow(how, m, n, k);
    if p != k then SwapRows(m, k, p) else m
  }

  /** Everything the solver does for column k: pivot, swap, (normalise,) eliminate. */
  function ForwardStep(how: Method, m: Matrix, n: nat, k: nat): (r: Result<Stage>)
    requires Augmented(m, n) && k < n
    ensures r.Ok? <==> Abs(m[PivotRow(how, m, n, k)][k]) >= Eps
    ensures r.Err? ==> r.error == SingularMatrix(k)
    ensures r.Ok? ==> Augmented(r.value.matrix, n)
    ensures r.Ok? ==> TopLeftKept(m, r.value.matrix, n, k)
    ensures r.Ok? ==> forall c :: 0 <= c < k ==> r.value.matrix[k][c] == m[PivotRow(how, m, n, k)][c]
    ensures r.Ok? && how != GaussJordan ==> Abs(r.value.matrix[k][k]) >= Eps
    ensures r.Ok? && how == GaussJordan ==> Abs(r.value.matrix[k][k] - 1.0) <= Eps
    ensures r.Ok? ==>
      ((|r.value.steps| > 0 && r.value.steps[0].kind == Swap(k, PivotRow(how, m, n, k)))
       <==> PivotRow(how, m, n, k) != k)
  {
    var p := PivotRow(how, m, n, k);
    if Abs(m[p][k]) < Eps then Err(SingularMatrix(k))
    else
      var m1 := Pivoted(how, m, n, k);
      var swapSteps := if p != k then [Step(Swap(k, p), m1)] else [];
      var e := if how == GaussJordan then JordanColumn(m1, n, k) else EliminateBelow(m1, n, k, k + 1);
      Ok(Stage(e.matrix, swapSteps + e.steps))
  }

  /** Gauss-Jordan's work on column k once the pivot is in place: divide the pivot row
      by its pivot unless that is already within Eps of 1, then clear the column. */
  function JordanColumn(m: Matrix, n: nat, k: nat): (s: Stage)
    requires Augmented(m, n) && k < n && Abs(m[k][k]) >= Eps
    ensures Augmented(s.matrix, n)
    ensures forall r, c :: 0 <= r < n && 0 <= c < k ==> s.matrix[r][c] == m[r][c]
    ensures Abs(s.matrix[k][k] - 1.0) <= Eps
    ensures (|s.steps| > 0 && s.steps[0].kind == Normalize(k)) <==> Abs(m[k][k] - 1.0) > Eps
    ensures Abs(m[k][k] - 1.0) > Eps ==> s.matrix[k] == DivideFrom(m[k], k, m[k][k]) && s.matrix[k][k] == 1.0
    ensures Abs(m[k][k] - 1.0) <= Eps ==> s.matrix[k] == m[k]
    ensures forall t :: 0 < t < |s.steps| ==> s.steps[t].kind.Eliminate? && s.steps[t].kind.column == k
  {
    var pivot := m[k][k];
    if Abs(pivot - 1.0) > Eps then
      var row := DivideFrom(m[k], k, pivot);
      var m2 := m[k := row];
      UnitQuotient(row[k], pivot, m[k][k]);
      var e := EliminateOthers(m2, n, k, 0);
      Stage(e.matrix, [Step(Normalize(k), m2)] + e.steps)
    else
      EliminateOthers(m, n, k, 0)
  }

  /** The forward phase from column k stopped before column c: the matrix with columns
      k .. c-1 handled, or the failure of the first of them that failed. */
  function Reached(how: Method, m: Matrix, n: nat, k: nat, c: nat): (r: Result<Matrix>)
    requires Augmented(m, n) && k <= c <= n
    ensures r.Ok? ==> Augmented(r.value, n)
    decreases c - k
  {
    if c == k then Ok(m)
    else
      match ForwardStep(how, m, n, k)
      case Err(e) => Err(e)
      case Ok(s) => Reached(how, s.matrix, n, k + 1, c)
  }

  /** The top-left block kept by column k's work and by the columns after it. */
  lemma {:induction false} KeptThrough(m: Matrix, u: Matrix, t: Matrix, n: nat, k: nat)
    requires Augmented(m, n) && Augmented(u, n) && Augmented(t, n) && k < n
    requires TopLeftKept(m, u, n, k) && TopLeftKept(u, t, n, k + 1)
    ensures TopLeftKept(m, t, n, k) && t[k][k] == u[k][k]
  {
  }

  /** Columns k.. of the forward phase; the first singular column aborts the solve. */
  function Forward(how: Method, m: Matrix, n: nat, k: nat): (r: Result<Stage>)
    requires Augmented(m, n) && k <= n
    ensures r.Ok? <==> Reached(how, m, n, k, n).Ok?
    ensures r.Ok? ==> r.value.matrix == Reached(how, m, n, k, n).value
    ensures r.Err? ==> r.error.SingularMatrix? && k <= r.error.column < n
    ensures r.Err? ==>
      Reached(how, m, n, k, r.error.column).Ok?
      && ForwardStep(how, Reached(how, m, n, k, r.error.column).value, n, r.error.column).Err?
    ensures r.Ok? ==> Augmented(r.value.matrix, n)
    ensures r.Ok? ==> TopLeftKept(m, r.value.matrix, n, k)
    ensures r.Ok? && how != GaussJordan ==> forall i :: k <= i < n ==> Abs(r.value.matrix[i][i]) >= Eps
    ensures r.Ok? && how == GaussJordan ==> forall i :: k <= i < n ==> Abs(r.value.matrix[i][i] - 1.0) <= Eps
    decreases n - k
  {
    if k == n then Ok(Stage(m, []))
    else
      match ForwardStep(how, m, n, k)
      case Err(e) =>
        assert Reached(how, m, n, k, k) == Ok(m);
        Err(e)
      case Ok(s) =>
        match Forward(how, s.matrix, n, k + 1)
        case Err(e) =>
          assert Reached(how, m, n, k, e.column) == Reached(how, s.matrix, n, k + 1, e.column);
          Err(e)
        case Ok(t) =>
          KeptThrough(m, s.matrix, t.matrix, n, k);
          Ok(Stage(t.matrix, s.steps + t.steps))
  }

  // ---------------------------------------------------------------- exactness

  /** One column's work is a sequence of genuine row operations as soon as the pivot
      row is zero left of column k. */
  lemma {:induction false} ForwardStepKeepsSolutions(how: Method, m: Matrix, n: nat, k: nat)
    requires Augmented(m, n) && k < n && ForwardStep(how, m, n, k).Ok?
    requires forall c :: 0 <= c < k ==> m[PivotRow(how, m, n, k)][c] == 0.0
    ensures SameSolutions(m, ForwardStep(how, m, n, k).value.matrix, n)
  {
    var m1 := Pivoted(how, m, n, k);
    PivotedKeepsSolutions(how, m, n, k);
    ColumnKeepsSolutions(how, m1, n, k);
    SameSolutionsTrans(m, m1, ForwardStep(how, m, n, k).value.matrix, n);
  }

  lemma {:induction false} PivotedKeepsSolutions(how: Method, m: Matrix, n: nat, k: nat)
    requires Augmented(m, n) && k < n
    ensures SameSolutions(m, Pivoted(how, m, n, k), n)
  {
    var p := PivotRow(how, m, n, k);
    if p != k {
      SwapKeepsSolutions(m, n, k, p);
    }
  }

  /** The elimination of column k once the pivot is in row k. */
  lemma {:induction false} ColumnKeepsSolutions(how: Method, m: Matrix, n: nat, k: nat)
    requires Augmented(m, n) && k < n && Abs(m[k][k]) >= Eps
    requires forall c :: 0 <= c < k ==> m[k][c] == 0.0
    ensures SameSolutions(m, (if how == GaussJordan then JordanColumn(m, n, k) else EliminateBelow(m, n, k, k + 1)).matrix, n)
  {
    if how == GaussJordan {
      JordanKeepsSolutions(m, n, k);
    } else {
      EliminateBelowKeepsSolutions(m, n, k, k + 1);
    }
  }

  lemma {:induction false} JordanKeepsSolutions(m: Matrix, n: nat, k: nat)
    requires Augmented(m, n) && k < n && Abs(m[k][k]) >= Eps
    requires forall c :: 0 <= c < k ==> m[k][c] == 0.0
    ensures SameSolutions(m, JordanColumn(m, n, k).matrix, n)
  {
    var pivot := m[k][k];
    if Abs(pivot - 1.0) > Eps {
      DivideKeepsSolutions(m, n, k, k, pivot);
      var m2 := m[k := DivideFrom(m[k], k, pivot)];
      EliminateOthersKeepsSolutions(m2, n, k, 0);
      SameSolutionsTrans(m, m2, EliminateOthers(m2, n, k, 0).matrix, n);
    } else {
      EliminateOthersKeepsSolutions(m, n, k, 0);
    }
  }

  lemma {:induction false} EliminateBelowKeepsSolutions(m: Matrix, n: nat, k: nat, i: nat)
    requires Augmented(m, n) && k < i <= n && m[k][k] != 0.0
    requires forall c :: 0 <= c < k ==> m[k][c] == 0.0
    ensures SameSolutions(m, EliminateBelow(m, n, k, i).matrix, n)
    decreases n - i
  {
    if i < n {
      var factor := m[i][k] / m[k][k];
      if Abs(factor) > Eps {
        var row := GaussRow(m[i], m[k], k, factor);
        forall j | 0 <= j <= n ensures row[j] == m[i][j] - factor * m[k][j] {
          if j == k {
            assert factor * m[k][k] == m[i][k];
          }
        }
        CombineKeepsSolutions(m, n, i, k, factor, row);
        var m1 := m[i := row];
        EliminateBelowKeepsSolutions(m1, n, k, i + 1);
        SameSolutionsTrans(m, m1, EliminateBelow(m1, n, k, i + 1).matrix, n);
      } else {
        EliminateBelowKeepsSolutions(m, n, k, i + 1);
      }
    }
  }

  lemma {:induction false} EliminateOthersKeepsSolutions(m: Matrix, n: nat, k: nat, i: nat)
    requires Augmented(m, n) && k < n && i <= n
    requires forall c :: 0 <= c < k ==> m[k][c] == 0.0
    ensures SameSolutions(m, EliminateOthers(m, n, k, i).matrix, n)
    decreases n - i
  {
    if i < n {
      if i != k && Abs(m[i][k]) > Eps {
        SubtractKeepsSolutions(m, n, i, k, k, m[i][k]);
        var m1 := m[i := SubtractFrom(m[i], m[k], k, m[i][k])];
        EliminateOthersKeepsSolutions(m1, n, k, i + 1);
        SameSolutionsTrans(m, m1, EliminateOthers(m1, n, k, i + 1).matrix, n);
      } else {
        EliminateOthersKeepsSolutions(m, n, k, i + 1);
      }
    }
  }

  /** Forward on columns k.. succeeds exactly when column k succeeds and the rest
      succeeds on its result, and it then ends in the rest's matrix. */
  lemma {:induction false} ForwardUnfold(how: Method, m: Matrix, n: nat, k: nat)
    requires Augmented(m, n) && k < n && Forward(how, m, n, k).Ok?
    ensures ForwardStep(how, m, n, k).Ok?
    ensures Forward(how, ForwardStep(how, m, n, k).value.matrix, n, k + 1).Ok?
    ensures Forward(how, m, n, k).value.matrix
      == Forward(how, ForwardStep(how, m, n, k).value.matrix, n, k + 1).value.matrix
  {
  }

  /** When the final matrix is zero left of the diagonal, so is column k's pivot row. */
  lemma {:induction false} PivotRowZeroLeft(how: Method, m: Matrix, n: nat, k: nat, u: Matrix)
    requires Augmented(m, n) && k < n && ForwardStep(how, m, n, k).Ok?
    requires Augmented(u, n) && LowerZero(u, n)
    requires TopLeftKept(ForwardStep(how, m, n, k).value.matrix, u, n, k + 1)
    ensures forall c :: 0 <= c < k ==> m[PivotRow(how, m, n, k)][c] == 0.0
  {
    var s := ForwardStep(how, m, n, k).value.matrix;
    forall c | 0 <= c < k ensures m[PivotRow(how, m, n, k)][c] == 0.0 {
      assert u[k][c] == s[k][c];
    }
  }

  /** If the matrix the forward phase ends with is exactly zero below its diagonal,
      every skipped or partial update was exact, so it has the input's solutions. */
  lemma {:induction false} ForwardKeepsSolutions(how: Method, m: Matrix, n: nat, k: nat)
    requires Augmented(m, n) && k <= n && Forward(how, m, n, k).Ok?
    requires LowerZero(Forward(how, m, n, k).value.matrix, n)
    ensures SameSolutions(m, Forward(how, m, n, k).value.matrix, n)
    decreases n - k
  {
    if k < n {
      ForwardUnfold(how, m, n, k);
      var s := ForwardStep(how, m, n, k).value.matrix;
      var u := Forward(how, m, n, k).value.matrix;
      PivotRowZeroLeft(how, m, n, k, u);
      ForwardStepKeepsSolutions(how, m, n, k);
      ForwardKeepsSolutions(how, s, n, k + 1);
      SameSolutionsTrans(m, s, u, n);
    }
  }

  lemma {:induction false} IdentitySatisfies(u: Matrix, n: nat, x: seq<real>)
    requires Augmented(u, n) && IdentityPart(u, n) && |x| == n
    ensures Satisfies(u, x, n) <==> forall i :: 0 <= i < n ==> x[i] == u[i][n]
  {
    forall i | 0 <= i < n ensures Dot(u[i], x, 0, n) == x[i] {
      DotSplit(u[i], x, 0, i, n);
      DotZero(u[i], x, 0, i);
      DotFront(u[i], x, i, n);
      DotZero(u[i], x, i + 1, n);
    }
  }

  // ---------------------------------------------------------------- the solver

  /** The trace a solve reports: its first step, the forward phase's steps, its last step. */
  function Framed(first: Step, middle: seq<Step>, last: Step): (s: seq<Step>)
    ensures |s| == |middle| + 2 && s[0] == first && s[|s| - 1] == last
    ensures s[1..|s| - 1] == middle
  {
    [first] + middle + [last]
  }

  /** solveDirect: forward phase, then back-substitution (Gauss, max-pivot) or reading
      the last column (Gauss-Jordan). */
  method SolveDirect(how: Method, m: Matrix, n: nat) returns (r: Result<Solution>)
    requires Augmented(m, n)
    ensures r.Err? <==> Forward(how, m, n, 0).Err?
    ensures r.Err? ==> r.error == Forward(how, m, n, 0).error && r.error.SingularMatrix? && r.error.column < n
    ensures r.Ok? ==> |r.value.x| == n && Augmented(r.value.reduced, n)
    ensures r.Ok? ==> |r.value.steps| >= 2 && r.value.steps[0] == Step(Initial, m)
    ensures r.Ok? ==> r.value.reduced == Forward(how, m, n, 0).value.matrix
    ensures r.Ok? ==> r.value.steps[1..|r.value.steps| - 1] == Forward(how, m, n, 0).value.steps
    ensures r.Ok? ==>
      r.value.steps[|r.value.steps| - 1] == Step(if how == GaussJordan then ReducedEchelonForm else EchelonForm, r.value.reduced)
    ensures r.Ok? && how != GaussJordan ==>
      (forall i :: 0 <= i < n ==> Abs(r.value.reduced[i][i]) >= Eps) && UpperHolds(r.value.reduced, r.value.x, n)
    ensures r.Ok? && how == GaussJordan ==>
      (forall i :: 0 <= i < n ==> Abs(r.value.reduced[i][i] - 1.0) <= Eps)
      && forall i :: 0 <= i < n ==> r.value.x[i] == r.value.reduced[i][n]
    ensures r.Ok? && (if how == GaussJordan then IdentityPart(r.value.reduced, n) else LowerZero(r.value.reduced, n)) ==>
      Satisfies(m, r.value.x, n) && forall y :: |y| == n && Satisfies(m, y, n) ==> y == r.value.x
  {
    var fw := Forward(how, m, n, 0);
    if fw.Err? {
      return Err(fw.error);
    }
    var u := fw.value.matrix;
    var x: seq<real>;
    var last: Step;
    if how == GaussJordan {
      x := seq(n, i requires 0 <= i < n => u[i][n]);
      last := Step(ReducedEchelonForm, u);
      if IdentityPart(u, n) {
        JordanExact(m, n, x);
      }
    } else {
      assert NonZeroDiagonal(u, n);
      x := BackSubstitute(u, n);
      last := Step(EchelonForm, u);
      if LowerZero(u, n) {
        GaussExact(how, m, n, x);
      }
    }
    r := Ok(Solution(x, Framed(Step(Initial, m), fw.value.steps, last), u));
  }

  /** Back-substitution on an exactly triangular result gives the unique solution. */
  lemma {:induction false} GaussExact(how: Method, m: Matrix, n: nat, x: seq<real>)
    requires Augmented(m, n) && Forward(how, m, n, 0).Ok? && |x| == n
    requires LowerZero(Forward(how, m, n, 0).value.matrix, n)
    requires UpperHolds(Forward(how, m, n, 0).value.matrix, x, n)
    ensures Satisfies(m, x, n) && forall y :: |y| == n && Satisfies(m, y, n) ==> y == x
  {
    var u := Forward(how, m, n, 0).value.matrix;
    ForwardKeepsSolutions(how, m, n, 0);
    UpperHoldsSatisfies(u, x, n);
    forall y | |y| == n && Satisfies(m, y, n) ensures y == x {
      SatisfiesUpperHolds(u, y, n);
      UpperUnique(u, x, y, n);
    }
  }

  /** Reading the last column of an exact identity gives the unique solution. */
  lemma {:induction false} JordanExact(m: Matrix, n: nat, x: seq<real>)
    requires Augmented(m, n) && Forward(GaussJordan, m, n, 0).Ok? && |x| == n
    requires IdentityPart(Forward(GaussJordan, m, n, 0).value.matrix, n)
    requires forall i :: 0 <= i < n ==> x[i] == Forward(GaussJordan, m, n, 0).value.matrix[i][n]
    ensures Satisfies(m, x, n) && forall y :: |y| == n && Satisfies(m, y, n) ==> y == x
  {
    var u := Forward(GaussJordan, m, n, 0).value.matrix;
    assert LowerZero(u, n);
    ForwardKeepsSolutions(GaussJordan, m, n, 0);
    IdentitySatisfies(u, n, x);
    forall y | |y| == n && Satisfies(m, y, n) ensures y == x {
      IdentitySatisfies(u, n, y);
    }
  }

  /** The singular example A = [[1,2],[2,4]], b = [3,6] fails in column 2 for every how. */
  lemma {:induction false} SingularExample(how: Method)
    ensures Forward(how, [[1.0, 2.0, 3.0], [2.0, 4.0, 6.0]], 2, 0) == Err(SingularMatrix(1))
  {
    var m := [[1.0, 2.0, 3.0], [2.0, 4.0, 6.0]];
    SingularFirstColumn(how);
    var s := ForwardStep(how, m, 2, 0);
    SingularSecondColumn(how, s.value.matrix);
  }

  lemma {:induction false} SingularFirstColumn(how: Method)
    ensures var s := ForwardStep(how, [[1.0, 2.0, 3.0], [2.0, 4.0, 6.0]], 2, 0);
      s.Ok? && s.value.matrix[1][1] == 0.0
  {
    match how
    case Gauss => SingularFirstColumnGauss();
    case MaxPivot => SingularFirstColumnMax();
    case GaussJordan => SingularFirstColumnJordan();
  }

  lemma {:induction false} SingularFirstColumnGauss()
    ensures var s := ForwardStep(Gauss, [[1.0, 2.0, 3.0], [2.0, 4.0, 6.0]], 2, 0);
      s.Ok? && s.value.matrix[1][1] == 0.0
  {
    var m := [[1.0, 2.0, 3.0], [2.0, 4.0, 6.0]];
    assert PivotRow(Gauss, m, 2, 0) == 0;
    assert ForwardStep(Gauss, m, 2, 0).value.matrix == EliminateBelow(m, 2, 0, 1).matrix;
  }

  lemma {:induction false} SingularFirstColumnMax()
    ensures var s := ForwardStep(MaxPivot, [[1.0, 2.0, 3.0], [2.0, 4.0, 6.0]], 2, 0);
      s.Ok? && s.value.matrix[1][1] == 0.0
  {
    var m := [[1.0, 2.0, 3.0], [2.0, 4.0, 6.0]];
    assert PivotRow(MaxPivot, m, 2, 0) == 1;
  }

  lemma {:induction false} SingularFirstColumnJordan()
    ensures var s := ForwardStep(GaussJordan, [[1.0, 2.0, 3.0], [2.0, 4.0, 6.0]], 2, 0);
      s.Ok? && s.value.matrix[1][1] == 0.0
  {
    var m := [[1.0, 2.0, 3.0], [2.0, 4.0, 6.0]];
    assert PivotRow(GaussJordan, m, 2, 0) == 0;
    assert ForwardStep(GaussJordan, m, 2, 0).value.matrix == EliminateOthers(m, 2, 0, 0).matrix;
  }

  /** A zero in the last diagonal place stops the forward phase there. */
  lemma {:induction false} SingularSecondColumn(how: Method, a: Matrix)
    requires Augmented(a, 2) && a[1][1] == 0.0
    ensures Forward(how, a, 2, 1) == Err(SingularMatrix(1))
  {
    assert PivotRow(how, a, 2, 1) == 1;
  }
}
