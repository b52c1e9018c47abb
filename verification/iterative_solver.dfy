/** Jacobi and Gauss-Seidel iteration (components/LinearSystemSolver.tsx, solveIterative):
    validation of the tolerance and the diagonal, one sweep of either method, the
    max-absolute-difference error, and the capped iteration table. */
module IterativeSolver {
  import opened Common
  import opened Elimination
  import DirectSolver

  datatype Method = Jacobi | Seidel

  /** At most this many sweeps follow the initial zero row. */
  const MaxIterations: nat := 15

  /** One table row: the sweep number, the iterate after it, and its error. */
  datatype IterRow = IterRow(iteration: nat, values: seq<real>, error: real)

  datatype Iteration = Iteration(rows: seq<IterRow>, solution: seq<real>, converged: bool)

  // ---------------------------------------------------------------- one sweep

  /** sum of row[j] * v[j] over j < hi with j != i, accumulated left to right. */
  function OffSum(row: seq<real>, v: seq<real>, i: nat, hi: nat): real
    requires hi <= |row| && hi <= |v|
  {
    if hi == 0 then 0.0
    else if hi - 1 == i then OffSum(row, v, i, hi - 1)
    else OffSum(row, v, i, hi - 1) + row[hi - 1] * v[hi - 1]
  }

  /** Adding back the diagonal term gives the full dot product. */
  lemma {:induction false} OffSumPlusDiagonal(row: seq<real>, v: seq<real>, i: nat, hi: nat)
    requires i < hi <= |row| && hi <= |v|
    ensures OffSum(row, v, i, hi) + row[i] * v[i] == Dot(row, v, 0, hi)
  {
    if hi - 1 != i {
      OffSumPlusDiagonal(row, v, i, hi - 1);
    } else {
      OffSumNoDiagonal(row, v, i, hi - 1);
      assert OffSum(row, v, i, hi) == OffSum(row, v, i, hi - 1);
      assert Dot(row, v, 0, hi) == Dot(row, v, 0, hi - 1) + row[i] * v[i];
    }
  }

  /** Without the diagonal in range OffSum is the plain dot product. */
  lemma {:induction false} OffSumNoDiagonal(row: seq<real>, v: seq<real>, i: nat, hi: nat)
    requires hi <= i && hi <= |row| && hi <= |v|
    ensures OffSum(row, v, i, hi) == Dot(row, v, 0, hi)
  {
    if hi > 0 {
      OffSumNoDiagonal(row, v, i, hi - 1);
    }
  }

  /** The update of unknown i from the values v: (b_i - sum_{j != i} a_ij v_j) / a_ii. */
  function Update(m: Matrix, n: nat, i: nat, v: seq<real>): real
    requires Augmented(m, n) && i < n && |v| == n && m[i][i] != 0.0
  {
    (m[i][n] - OffSum(m[i], v, i, n)) / m[i][i]
  }

  /** An unknown is left unchanged by its update exactly when its equation holds. */
  lemma {:induction false} UpdateFixed(m: Matrix, n: nat, i: nat, v: seq<real>)
    requires Augmented(m, n) && i < n && |v| == n && m[i][i] != 0.0
    ensures Update(m, n, i, v) == v[i] <==> RowHolds(m[i], v, n)
  {
    OffSumPlusDiagonal(m[i], v, i, n);
    var off := OffSum(m[i], v, i, n);
    var a := m[i][i];
    if Update(m, n, i, v) == v[i] {
      assert m[i][n] - off == v[i] * a;
    }
    if RowHolds(m[i], v, n) {
      assert m[i][n] - off == a * v[i];
    }
  }

  predicate DiagonalNonZero(m: Matrix, n: nat)
    requires Augmented(m, n)
  {
    forall i :: 0 <= i < n ==> m[i][i] != 0.0
  }

  /** Jacobi: every unknown is updated from the previous iterate only. */
  function JacobiSweep(m: Matrix, n: nat, prev: seq<real>): (x: seq<real>)
    requires Augmented(m, n) && DiagonalNonZero(m, n) && |prev| == n
    ensures |x| == n
  {
    seq(n, i requires 0 <= i < n => Update(m, n, i, prev))
  }

  /** Gauss-Seidel: the first k updated unknowns, each computed from the ones already
      updated in this sweep (j < i) and the previous iterate (j > i). */
  function SeidelPrefix(m: Matrix, n: nat, prev: seq<real>, k: nat): (x: seq<real>)
    requires Augmented(m, n) && DiagonalNonZero(m, n) && |prev| == n && k <= n
    ensures |x| == k
  {
    if k == 0 then []
    else
      var done := SeidelPrefix(m, n, prev, k - 1);
      done + [Update(m, n, k - 1, done + prev[k - 1..])]
  }

  function SeidelSweep(m: Matrix, n: nat, prev: seq<real>): (x: seq<real>)
    requires Augmented(m, n) && DiagonalNonZero(m, n) && |prev| == n
    ensures |x| == n
  {
    SeidelPrefix(m, n, prev, n)
  }

  function Sweep(how: Method, m: Matrix, n: nat, prev: seq<real>): (x: seq<real>)
    requires Augmented(m, n) && DiagonalNonZero(m, n) && |prev| == n
    ensures |x| == n
  {
    if how == Jacobi then JacobiSweep(m, n, prev) else SeidelSweep(m, n, prev)
  }

  /** Jacobi leaves x where it is exactly when x solves the system. */
  lemma {:induction false} JacobiFixedPoint(m: Matrix, n: nat, x: seq<real>)
    requires Augmented(m, n) && DiagonalNonZero(m, n) && |x| == n
    ensures JacobiSweep(m, n, x) == x <==> Satisfies(m, x, n)
  {
    forall i | 0 <= i < n ensures JacobiSweep(m, n, x)[i] == x[i] <==> RowHolds(m[i], x, n) {
      UpdateFixed(m, n, i, x);
    }
    if Satisfies(m, x, n) {
      assert forall i :: 0 <= i < n ==> JacobiSweep(m, n, x)[i] == x[i];
    }
  }

  /** Each Seidel prefix extends the shorter ones. */
  lemma {:induction false} SeidelPrefixExtends(m: Matrix, n: nat, prev: seq<real>, j: nat, k: nat)
    requires Augmented(m, n) && DiagonalNonZero(m, n) && |prev| == n && j <= k <= n
    ensures SeidelPrefix(m, n, prev, k)[..j] == SeidelPrefix(m, n, prev, j)
    decreases k
  {
    if j < k {
      SeidelPrefixExtends(m, n, prev, j, k - 1);
      assert SeidelPrefix(m, n, prev, k)[..k - 1] == SeidelPrefix(m, n, prev, k - 1);
    }
  }

  /** If x solves the system, every Seidel prefix from x is the matching prefix of x. */
  lemma {:induction false} SeidelPrefixOfSolution(m: Matrix, n: nat, x: seq<real>, k: nat)
    requires Augmented(m, n) && DiagonalNonZero(m, n) && |x| == n && k <= n
    requires Satisfies(m, x, n)
    ensures SeidelPrefix(m, n, x, k) == x[..k]
    decreases k
  {
    if k > 0 {
      SeidelPrefixOfSolution(m, n, x, k - 1);
      assert x[..k - 1] + x[k - 1..] == x;
      UpdateFixed(m, n, k - 1, x);
      assert x[..k - 1] + [x[k - 1]] == x[..k];
    }
  }

  /** Gauss-Seidel leaves x where it is exactly when x solves the system. */
  lemma {:induction false} SeidelFixedPoint(m: Matrix, n: nat, x: seq<real>)
    requires Augmented(m, n) && DiagonalNonZero(m, n) && |x| == n
    ensures SeidelSweep(m, n, x) == x <==> Satisfies(m, x, n)
  {
    if Satisfies(m, x, n) {
      SeidelPrefixOfSolution(m, n, x, n);
      assert x[..n] == x;
    }
    if SeidelSweep(m, n, x) == x {
      forall i | 0 <= i < n ensures RowHolds(m[i], x, n) {
        var done := SeidelPrefix(m, n, x, i);
        SeidelPrefixExtends(m, n, x, i, n);
        SeidelPrefixExtends(m, n, x, i + 1, n);
        assert done == x[..i];
        assert done + x[i..] == x;
        assert SeidelPrefix(m, n, x, i + 1)[i] == Update(m, n, i, x);
        assert x[..i + 1][i] == x[i];
        UpdateFixed(m, n, i, x);
      }
    }
  }

  /** Both methods stop moving exactly at a solution. */
  lemma {:induction false} SweepFixedPoint(how: Method, m: Matrix, n: nat, x: seq<real>)
    requires Augmented(m, n) && DiagonalNonZero(m, n) && |x| == n
    ensures Sweep(how, m, n, x) == x <==> Satisfies(m, x, n)
  {
    if how == Jacobi {
      JacobiFixedPoint(m, n, x);
    } else {
      SeidelFixedPoint(m, n, x);
    }
  }

  // ---------------------------------------------------------------- the error

  /** max over i < k of |x[i] - y[i]|, folded from 0 with Math.max. */
  function MaxAbsDiff(x: seq<real>, y: seq<real>, k: nat): (e: real)
    requires k <= |x| && k <= |y|
    ensures e >= 0.0
    ensures forall i :: 0 <= i < k ==> Abs(x[i] - y[i]) <= e
    ensures e == 0.0 || exists i :: 0 <= i < k && e == Abs(x[i] - y[i])
  {
    if k == 0 then 0.0 else Max(MaxAbsDiff(x, y, k - 1), Abs(x[k - 1] - y[k - 1]))
  }

  /** The error is zero exactly when nothing moved. */
  lemma {:induction false} MaxAbsDiffZero(x: seq<real>, y: seq<real>)
    requires |x| == |y|
    ensures MaxAbsDiff(x, y, |x|) == 0.0 <==> x == y
  {
    if MaxAbsDiff(x, y, |x|) == 0.0 {
      assert forall i :: 0 <= i < |x| ==> x[i] == y[i];
    }
  }

  // ---------------------------------------------------------------- the driver

  /** The first row whose diagonal entry is below the threshold, if any. */
  function FirstSmallDiagonal(m: Matrix, n: nat, i: nat): (r: Option<nat>)
    requires Augmented(m, n) && i <= n
    ensures r.None? <==> forall j :: i <= j < n ==> Abs(m[j][j]) >= DirectSolver.Eps
    ensures r.Some? ==>
      (i <= r.value < n && Abs(m[r.value][r.value]) < DirectSolver.Eps
       && forall j :: i <= j < r.value ==> Abs(m[j][j]) >= DirectSolver.Eps)
    decreases n - i
  {
    if i == n then None
    else if Abs(m[i][i]) < DirectSolver.Eps then Some(i)
    else FirstSmallDiagonal(m, n, i + 1)
  }

  /** Consecutive rows are consecutive sweeps with their errors. */
  predicate Chained(how: Method, m: Matrix, n: nat, rows: seq<IterRow>)
    requires Augmented(m, n) && DiagonalNonZero(m, n)
  {
    (forall t :: 0 <= t < |rows| ==> |rows[t].values| == n && rows[t].iteration == t)
    && forall t :: 1 <= t < |rows| ==>
      rows[t].values == Sweep(how, m, n, rows[t - 1].values)
      && rows[t].error == MaxAbsDiff(rows[t].values, rows[t - 1].values, n)
  }

  /** What a successful run promises: the zero start row, at most MaxIterations sweeps,
      a stop at the first error below tol, and the last iterate as the answer. */
  predicate Run(how: Method, m: Matrix, n: nat, tol: real, it: Iteration)
    requires Augmented(m, n) && DiagonalNonZero(m, n)
  {
    var rows := it.rows;
    2 <= |rows| <= MaxIterations + 1
    && rows[0] == IterRow(0, seq(n, _ => 0.0), 0.0)
    && Chained(how, m, n, rows)
    && (forall t :: 1 <= t < |rows| - 1 ==> rows[t].error >= tol)
    && (it.converged <==> rows[|rows| - 1].error < tol)
    && (!it.converged ==> |rows| == MaxIterations + 1)
    && it.solution == rows[|rows| - 1].values
  }

  /** Appending one more sweep keeps the table chained. */
  lemma {:induction false} ChainedAppend(how: Method, m: Matrix, n: nat, rows: seq<IterRow>, x: seq<real>)
    requires Augmented(m, n) && DiagonalNonZero(m, n) && |rows| >= 1 && Chained(how, m, n, rows)
    requires x == Sweep(how, m, n, rows[|rows| - 1].values)
    ensures Chained(how, m, n, rows + [IterRow(|rows|, x, MaxAbsDiff(x, rows[|rows| - 1].values, n))])
  {
  }

  /** solveIterative. A blank tolerance is None. */
  method SolveIterative(how: Method, m: Matrix, n: nat, tolerance: Option<real>) returns (r: Result<Iteration>)
    requires Augmented(m, n)
    ensures tolerance.None? ==> r == Err(MissingInput)
    ensures tolerance.Some? && tolerance.value <= 0.0 ==> r == Err(InvalidTolerance)
    ensures tolerance.Some? && tolerance.value > 0.0 ==>
      (r.Err? <==> FirstSmallDiagonal(m, n, 0).Some?)
      && (r.Err? ==> r.error == ZeroDiagonal(FirstSmallDiagonal(m, n, 0).value))
    ensures r.Ok? ==> tolerance.Some? && DiagonalNonZero(m, n) && Run(how, m, n, tolerance.value, r.value)
  {
    if tolerance.None? {
      return Err(MissingInput);
    }
    var tol := tolerance.value;
    if tol <= 0.0 {
      return Err(InvalidTolerance);
    }
    var small := FirstSmallDiagonal(m, n, 0);
    if small.Some? {
      return Err(ZeroDiagonal(small.value));
    }
    assert forall i :: 0 <= i < n ==> Abs(m[i][i]) >= DirectSolver.Eps;
    assert DiagonalNonZero(m, n);
    var x := seq(n, _ => 0.0);
    var rows := [IterRow(0, x, 0.0)];
    var converged := false;
    var iter := 0;
    while !converged && iter < MaxIterations
      invariant 0 <= iter <= MaxIterations && |rows| == iter + 1
      invariant rows[0] == IterRow(0, seq(n, _ => 0.0), 0.0)
      invariant Chained(how, m, n, rows)
      invariant x == rows[iter].values
      invariant forall t :: 1 <= t < iter ==> rows[t].error >= tol
      invariant converged <==> iter > 0 && rows[iter].error < tol
    {
      var prev := x;
      x := Sweep(how, m, n, prev);
      var err := MaxAbsDiff(x, prev, n);
      ChainedAppend(how, m, n, rows, x);
      rows := rows + [IterRow(iter + 1, x, err)];
      iter := iter + 1;
      converged := err < tol;
    }
    r := Ok(Iteration(rows, x, converged));
  }

  /** A run whose last error is exactly zero ends on an exact solution. */
  lemma {:induction false} ZeroErrorSolves(how: Method, m: Matrix, n: nat, rows: seq<IterRow>)
    requires Augmented(m, n) && DiagonalNonZero(m, n) && |rows| >= 2 && Chained(how, m, n, rows)
    requires rows[|rows| - 1].error == 0.0
    ensures Satisfies(m, rows[|rows| - 1].values, n)
  {
    var last := rows[|rows| - 1].values;
    var before := rows[|rows| - 2].values;
    MaxAbsDiffZero(last, before);
    SweepFixedPoint(how, m, n, before);
  }
}
