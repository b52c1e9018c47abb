/** Least-squares curve fitting: the normal equations of a basis, their solution by
    Gaussian elimination with partial pivoting, and the log-linearised exponential
    model solved by Cramer's rule. */
module CurveFitting {
  import opened Common
  import opened Elimination

  /** Pivots smaller than this in magnitude make the normal matrix "singular". */
  const Tiny: real := 0.000000000001

  /** A custom basis whose text field is blank is `Custom(None)`. */
  datatype Model = Linear | Quadratic | Exponential | Custom(basis: Option<seq<real -> real>>)

  /** The augmented normal system [A|B] that was solved, and the coefficients. */
  datatype Fitted = Fitted(system: Matrix, solution: seq<real>)

  function One(x: real): real { 1.0 }
  function Linear1(x: real): real { x }
  function Square(x: real): real { x * x }

  /** The basis functions of the polynomial and custom models. */
  function BasisOf(model: Model): Option<seq<real -> real>>
    requires !model.Exponential?
  {
    if model.Linear? then Some([One, Linear1])
    else if model.Quadratic? then Some([One, Linear1, Square])
    else model.basis
  }

  // ---------------------------------------------------------------- normal equations

  /** sum_{t < k} phi_i(x_t) * phi_j(x_t), accumulated over the points in order. */
  function Cross(basis: seq<real -> real>, pts: seq<Point>, i: nat, j: nat, k: nat): real
    requires i < |basis| && j < |basis| && k <= |pts|
  {
    if k == 0 then 0.0
    else Cross(basis, pts, i, j, k - 1) + basis[i](pts[k - 1].x) * basis[j](pts[k - 1].x)
  }

  /** sum_{t < k} y_t * phi_i(x_t). */
  function Moment(basis: seq<real -> real>, pts: seq<Point>, i: nat, k: nat): real
    requires i < |basis| && k <= |pts|
  {
    if k == 0 then 0.0
    else Moment(basis, pts, i, k - 1) + pts[k - 1].y * basis[i](pts[k - 1].x)
  }

  /** [A|B] with A[i][j] = sum phi_i phi_j and B[i] = sum y phi_i over all points. */
  function NormalSystem(basis: seq<real -> real>, pts: seq<Point>): (m: Matrix)
    ensures Augmented(m, |basis|)
    ensures forall i, j :: 0 <= i < |basis| && 0 <= j < |basis| ==> m[i][j] == Cross(basis, pts, i, j, |pts|)
    ensures forall i :: 0 <= i < |basis| ==> m[i][|basis|] == Moment(basis, pts, i, |pts|)
  {
    var n := |basis|;
    seq(n, i requires 0 <= i < n =>
      seq(n + 1, j requires 0 <= j <= n =>
        if j < n then Cross(basis, pts, i, j, |pts|) else Moment(basis, pts, i, |pts|)))
  }

  lemma {:induction false} CrossSymmetric(basis: seq<real -> real>, pts: seq<Point>, i: nat, j: nat, k: nat)
    requires i < |basis| && j < |basis| && k <= |pts|
    ensures Cross(basis, pts, i, j, k) == Cross(basis, pts, j, i, k)
  {
    if k > 0 {
      CrossSymmetric(basis, pts, i, j, k - 1);
    }
  }

  /** The normal matrix is symmetric. */
  lemma {:induction false} NormalSymmetric(basis: seq<real -> real>, pts: seq<Point>)
    ensures forall i, j :: 0 <= i < |basis| && 0 <= j < |basis| ==>
      NormalSystem(basis, pts)[i][j] == NormalSystem(basis, pts)[j][i]
  {
    forall i, j | 0 <= i < |basis| && 0 <= j < |basis|
      ensures NormalSystem(basis, pts)[i][j] == NormalSystem(basis, pts)[j][i]
    {
      CrossSymmetric(basis, pts, i, j, |pts|);
    }
  }

  // ---------------------------------------------------------------- partial-pivot elimination

  /** Columns left of i are already cleared below the diagonal. */
  predicate ZeroLeftBelow(m: Matrix, n: nat, i: nat)
    requires Augmented(m, n)
  {
    forall r, c :: 0 <= c < i && c < r < n ==> m[r][c] == 0.0
  }

  /** Rows k.. each lose (m[r][i] / m[i][i]) times the pivot row, from column i on. */
  function ClearColumn(m: Matrix, n: nat, i: nat, k: nat): (r: Matrix)
    requires Augmented(m, n) && i < k <= n && m[i][i] != 0.0
    ensures Augmented(r, n)
    ensures forall t :: 0 <= t < k ==> r[t] == m[t]
    ensures forall t :: k <= t < n ==> r[t] == SubtractFrom(m[t], m[i], i, m[t][i] / m[i][i])
    decreases n - k
  {
    if k == n then m
    else ClearColumn(m[k := SubtractFrom(m[k], m[i], i, m[k][i] / m[i][i])], n, i, k + 1)
  }

  lemma {:induction false} ClearColumnKeepsSolutions(m: Matrix, n: nat, i: nat, k: nat)
    requires Augmented(m, n) && i < k <= n && m[i][i] != 0.0
    requires forall c :: 0 <= c < i ==> m[i][c] == 0.0
    ensures SameSolutions(m, ClearColumn(m, n, i, k), n)
    decreases n - k
  {
    if k < n {
      var m1 := m[k := SubtractFrom(m[k], m[i], i, m[k][i] / m[i][i])];
      SubtractKeepsSolutions(m, n, k, i, i, m[k][i] / m[i][i]);
      ClearColumnKeepsSolutions(m1, n, i, k + 1);
      SameSolutionsTrans(m, m1, ClearColumn(m1, n, i, k + 1), n);
    }
  }

  /** Swapping row i with a lower row keeps the cleared columns cleared. */
  lemma {:induction false} SwapKeepsCleared(m: Matrix, n: nat, i: nat, p: nat)
    requires Augmented(m, n) && i <= p < n && ZeroLeftBelow(m, n, i)
    ensures Augmented(SwapRows(m, i, p), n) && ZeroLeftBelow(SwapRows(m, i, p), n, i)
    ensures forall c :: 0 <= c < i ==> SwapRows(m, i, p)[i][c] == 0.0
  {
    var m1 := SwapRows(m, i, p);
    forall r, c | 0 <= c < i && c < r < n ensures m1[r][c] == 0.0 {
      if r == i { assert m1[r] == m[p]; }
      else if r == p { assert m1[r] == m[i]; }
      else { assert m1[r] == m[r]; }
    }
  }

  /** The cleared row is zero in every column up to and including i. */
  lemma {:induction false} ClearRow(row: seq<real>, pivot: seq<real>, i: nat)
    requires |row| == |pivot| && i < |row| && pivot[i] != 0.0
    requires forall c :: 0 <= c < i ==> row[c] == 0.0
    ensures var s := SubtractFrom(row, pivot, i, row[i] / pivot[i]); forall c :: 0 <= c <= i ==> s[c] == 0.0
  {
    var f := row[i] / pivot[i];
    var s := SubtractFrom(row, pivot, i, f);
    assert f * pivot[i] == row[i];
    assert s[i] == row[i] - f * pivot[i];
  }

  /** Clearing column i below a pivot row that is zero left of i clears columns < i + 1. */
  lemma {:induction false} ClearColumnClears(m: Matrix, n: nat, i: nat)
    requires Augmented(m, n) && i < n && m[i][i] != 0.0 && ZeroLeftBelow(m, n, i)
    requires forall c :: 0 <= c < i ==> m[i][c] == 0.0
    ensures ZeroLeftBelow(ClearColumn(m, n, i, i + 1), n, i + 1)
  {
    var m2 := ClearColumn(m, n, i, i + 1);
    forall r | i < r < n ensures forall c :: 0 <= c <= i ==> m2[r][c] == 0.0 {
      ClearRow(m[r], m[i], i);
      assert m2[r] == SubtractFrom(m[r], m[i], i, m[r][i] / m[i][i]);
    }
  }

  /** Column i of the fitter's elimination: swap up the first row with the largest |entry|
      in the column, fail when that pivot is below 1e-12 in magnitude, otherwise clear the
      column below it with no skipping. */
  function ColumnStep(m: Matrix, n: nat, i: nat): (r: Result<Matrix>)
    requires Augmented(m, n) && i < n && ZeroLeftBelow(m, n, i)
    ensures r.Err? <==> Abs(m[MaxPivotRow(m, i)][i]) < Tiny
    ensures r.Err? ==> r.error == SingularMatrix(i)
    ensures r.Ok? ==> Augmented(r.value, n) && ZeroLeftBelow(r.value, n, i + 1)
    ensures r.Ok? ==> r.value[i] == m[MaxPivotRow(m, i)] && Abs(r.value[i][i]) >= Tiny
    ensures r.Ok? ==> forall t :: 0 <= t < i ==> r.value[t] == m[t]
  {
    var m1 := SwapRows(m, i, MaxPivotRow(m, i));
    if Abs(m1[i][i]) < Tiny then Err(SingularMatrix(i))
    else
      SwapKeepsCleared(m, n, i, MaxPivotRow(m, i));
      ClearColumnClears(m1, n, i);
      Ok(ClearColumn(m1, n, i, i + 1))
  }

  /** The matrix once columns i .. c-1 have been processed, or the first failure among them. */
  function Cleared(m: Matrix, n: nat, i: nat, c: nat): (r: Result<Matrix>)
    requires Augmented(m, n) && i <= c <= n && ZeroLeftBelow(m, n, i)
    ensures r.Ok? ==> Augmented(r.value, n) && ZeroLeftBelow(r.value, n, c)
    decreases c - i
  {
    if c == i then Ok(m)
    else
      match ColumnStep(m, n, i)
      case Err(e) => Err(e)
      case Ok(m2) => Cleared(m2, n, i + 1, c)
  }

  /** Forward elimination from column i on, as the fitter runs it, one ColumnStep per column. */
  function Triangulate(m: Matrix, n: nat, i: nat): (r: Result<Matrix>)
    requires Augmented(m, n) && i <= n && ZeroLeftBelow(m, n, i)
    ensures r.Ok? ==> Augmented(r.value, n) && LowerZero(r.value, n)
    ensures r.Ok? ==> forall d :: i <= d < n ==> Abs(r.value[d][d]) >= Tiny
    ensures r.Ok? ==> forall t :: 0 <= t < i ==> r.value[t] == m[t]
    ensures r.Err? ==> r.error.SingularMatrix? && i <= r.error.column < n
    ensures r.Ok? <==> Cleared(m, n, i, n).Ok?
    ensures r.Ok? ==> r.value == Cleared(m, n, i, n).value
    ensures r.Err? ==>
      Cleared(m, n, i, r.error.column).Ok?
      && ColumnStep(Cleared(m, n, i, r.error.column).value, n, r.error.column).Err?
    decreases n - i
  {
    if i == n then Ok(m)
    else
      match ColumnStep(m, n, i)
      case Err(e) =>
        assert Cleared(m, n, i, i) == Ok(m);
        Err(e)
      case Ok(m2) =>
        var r := Triangulate(m2, n, i + 1);
        assert r.Err? ==> Cleared(m, n, i, r.error.column) == Cleared(m2, n, i + 1, r.error.column);
        r
  }

  lemma {:induction false} TriangulateKeepsSolutions(m: Matrix, n: nat, i: nat)
    requires Augmented(m, n) && i <= n && ZeroLeftBelow(m, n, i)
    ensures Triangulate(m, n, i).Ok? ==> SameSolutions(m, Triangulate(m, n, i).value, n)
    decreases n - i
  {
    if i < n {
      var p := MaxPivotRow(m, i);
      var m1 := SwapRows(m, i, p);
      if Abs(m1[i][i]) >= Tiny {
        var m2 := ClearColumn(m1, n, i, i + 1);
        assert ColumnStep(m, n, i) == Ok(m2);
        SwapKeepsCleared(m, n, i, p);
        ClearColumnClears(m1, n, i);
        SwapKeepsSolutions(m, n, i, p);
        ClearColumnKeepsSolutions(m1, n, i, i + 1);
        TriangulateKeepsSolutions(m2, n, i + 1);
        if Triangulate(m2, n, i + 1).Ok? {
          SameSolutionsTrans(m, m1, m2, n);
          SameSolutionsTrans(m, m2, Triangulate(m2, n, i + 1).value, n);
        }
      }
    }
  }

  /** Elimination then back-substitution: either the singular-pivot error of the
      elimination, or the unique exact solution of the system. */
  method SolveNormal(m: Matrix, n: nat) returns (r: Result<seq<real>>)
    requires Augmented(m, n)
    ensures Triangulate(m, n, 0).Err? ==> r == Err(Triangulate(m, n, 0).error)
    ensures Triangulate(m, n, 0).Ok? ==> r.Ok?
    ensures r.Ok? ==> |r.value| == n && Satisfies(m, r.value, n)
    ensures r.Ok? ==> forall y :: |y| == n && Satisfies(m, y, n) ==> y == r.value
  {
    var t := Triangulate(m, n, 0);
    if t.Err? {
      return Err(t.error);
    }
    var u := t.value;
    var x := BackSubstitute(u, n);
    SolvedExactly(m, n, u, x);
    return Ok(x);
  }

  lemma {:induction false} SolvedExactly(m: Matrix, n: nat, u: Matrix, x: seq<real>)
    requires Augmented(m, n) && Triangulate(m, n, 0) == Ok(u)
    requires |x| == n && UpperHolds(u, x, n)
    ensures Satisfies(m, x, n)
    ensures forall y :: |y| == n && Satisfies(m, y, n) ==> y == x
  {
    TriangulateKeepsSolutions(m, n, 0);
    assert NonZeroDiagonal(u, n);
    UpperHoldsSatisfies(u, x, n);
    forall y | |y| == n && Satisfies(m, y, n) ensures y == x {
      SatisfiesUpperHolds(u, y, n);
      UpperUnique(u, x, y, n);
    }
  }

  // ---------------------------------------------------------------- what the normal equations mean

  /** sum_{j < J} c_j * phi_j(x): the fitted curve with the first J basis terms. */
  function FitValue(basis: seq<real -> real>, c: seq<real>, x: real, J: nat): real
    requires J <= |basis| && J <= |c|
  {
    if J == 0 then 0.0 else FitValue(basis, c, x, J - 1) + c[J - 1] * basis[J - 1](x)
  }

  /** sum_{t < K} phi_i(x_t) * (y_t - fit(x_t)): the residual projected on phi_i. */
  function Residual(basis: seq<real -> real>, c: seq<real>, pts: seq<Point>, i: nat, K: nat): real
    requires i < |basis| && |c| == |basis| && K <= |pts|
  {
    if K == 0 then 0.0
    else
      var x := pts[K - 1].x;
      Residual(basis, c, pts, i, K - 1) + basis[i](x) * (pts[K - 1].y - FitValue(basis, c, x, |basis|))
  }

  /** sum_{t < K} phi_i(x_t) * (partial fit with J terms)(x_t). */
  function Projection(basis: seq<real -> real>, c: seq<real>, pts: seq<Point>, i: nat, K: nat, J: nat): real
    requires i < |basis| && J <= |basis| && J <= |c| && K <= |pts|
  {
    if K == 0 then 0.0
    else
      var x := pts[K - 1].x;
      Projection(basis, c, pts, i, K - 1, J) + basis[i](x) * FitValue(basis, c, x, J)
  }

  lemma {:induction false} ProjectionStep(basis: seq<real -> real>, c: seq<real>, pts: seq<Point>, i: nat, K: nat, J: nat)
    requires i < |basis| && 0 < J <= |basis| && J <= |c| && K <= |pts|
    ensures Projection(basis, c, pts, i, K, J)
         == Projection(basis, c, pts, i, K, J - 1) + c[J - 1] * Cross(basis, pts, i, J - 1, K)
  {
    if K > 0 {
      ProjectionStep(basis, c, pts, i, K - 1, J);
      var x := pts[K - 1].x;
      ProjectionAlgebra(Projection(basis, c, pts, i, K - 1, J), Projection(basis, c, pts, i, K - 1, J - 1),
        Cross(basis, pts, i, J - 1, K - 1), basis[i](x), basis[J - 1](x), FitValue(basis, c, x, J - 1), c[J - 1],
        FitValue(basis, c, x, J), Projection(basis, c, pts, i, K, J), Projection(basis, c, pts, i, K, J - 1),
        Cross(basis, pts, i, J - 1, K));
    }
  }

  /** The step of ProjectionStep over plain reals: p and q are the projections with J and
      J - 1 terms, r the cross sum, a = phi_i(x), b = phi_{J-1}(x), f the fit with J - 1 terms. */
  lemma {:induction false} ProjectionAlgebra(p: real, q: real, r: real, a: real, b: real, f: real, cj: real,
                                             g: real, p1: real, q1: real, r1: real)
    requires p == q + cj * r && g == f + cj * b
    requires p1 == p + a * g && q1 == q + a * f && r1 == r + a * b
    ensures p1 == q1 + cj * r1
  {
    assert a * g == a * f + cj * (a * b);
  }

  lemma {:induction false} ProjectionDot(basis: seq<real -> real>, c: seq<real>, pts: seq<Point>, i: nat, J: nat)
    requires i < |basis| && J <= |basis| && |c| == |basis|
    ensures Projection(basis, c, pts, i, |pts|, J) == Dot(NormalSystem(basis, pts)[i], c, 0, J)
  {
    if J == 0 {
      ProjectionZero(basis, c, pts, i, |pts|);
    } else {
      ProjectionDot(basis, c, pts, i, J - 1);
      ProjectionStep(basis, c, pts, i, |pts|, J);
    }
  }

  lemma {:induction false} ProjectionZero(basis: seq<real -> real>, c: seq<real>, pts: seq<Point>, i: nat, K: nat)
    requires i < |basis| && |c| == |basis| && K <= |pts|
    ensures Projection(basis, c, pts, i, K, 0) == 0.0
  {
    if K > 0 {
      ProjectionZero(basis, c, pts, i, K - 1);
    }
  }

  lemma {:induction false} ResidualSplit(basis: seq<real -> real>, c: seq<real>, pts: seq<Point>, i: nat, K: nat)
    requires i < |basis| && |c| == |basis| && K <= |pts|
    ensures Residual(basis, c, pts, i, K)
         == Moment(basis, pts, i, K) - Projection(basis, c, pts, i, K, |basis|)
  {
    if K > 0 {
      ResidualSplit(basis, c, pts, i, K - 1);
      var x := pts[K - 1].x;
      var a := basis[i](x);
      var y := pts[K - 1].y;
      var f := FitValue(basis, c, x, |basis|);
      assert a * (y - f) == y * a - a * f;
    }
  }

  /** The residual of the fitted curve is orthogonal to every basis function. */
  predicate Orthogonal(basis: seq<real -> real>, pts: seq<Point>, c: seq<real>)
    requires |c| == |basis|
  {
    forall i :: 0 <= i < |basis| ==> Residual(basis, c, pts, i, |pts|) == 0.0
  }

  /** Least squares: c solves the normal equations exactly when the residual of the
      fitted curve is orthogonal to every basis function over the data. */
  lemma {:induction false} NormalEquationsOrthogonal(basis: seq<real -> real>, pts: seq<Point>, c: seq<real>)
    requires |c| == |basis|
    ensures Satisfies(NormalSystem(basis, pts), c, |basis|) <==> Orthogonal(basis, pts, c)
  {
    var m := NormalSystem(basis, pts);
    var n := |basis|;
    forall i | 0 <= i < n
      ensures RowHolds(m[i], c, n) <==> Residual(basis, c, pts, i, |pts|) == 0.0
    {
      ResidualSplit(basis, c, pts, i, |pts|);
      ProjectionDot(basis, c, pts, i, n);
      assert Residual(basis, c, pts, i, |pts|) == m[i][n] - Dot(m[i], c, 0, n);
    }
  }

  // ---------------------------------------------------------------- exponential model

  function XOf(p: Point): real { p.x }
  function YOf(p: Point): real { p.y }
  function XXOf(p: Point): real { p.x * p.x }
  function XYOf(p: Point): real { p.x * p.y }

  /** sum of g over the points, accumulated in order. */
  function Total(q: seq<Point>, g: Point -> real): real
    decreases |q|
  {
    if |q| == 0 then 0.0 else Total(q[..|q| - 1], g) + g(q[|q| - 1])
  }

  lemma {:induction false} TotalAppend(q: seq<Point>, p: Point, g: Point -> real)
    ensures Total(q + [p], g) == Total(q, g) + g(p)
  {
    assert (q + [p])[..|q|] == q;
  }

  /** Each point with y replaced by ln y (Y = ln y linearises y = a e^(bx)). */
  function Logged(pts: seq<Point>, ln: real -> real): (q: seq<Point>)
    ensures |q| == |pts|
    ensures forall k :: 0 <= k < |q| ==> q[k].x == pts[k].x && q[k].y == ln(pts[k].y)
  {
    seq(|pts|, k requires 0 <= k < |pts| => Point(pts[k].x, ln(pts[k].y)))
  }

  /** [[N, sum x | sum Y], [sum x, sum x^2 | sum x Y]] for Y = A + B x. */
  function LineSystem(q: seq<Point>): (m: Matrix)
    ensures Augmented(m, 2)
  {
    [[|q| as real, Total(q, XOf), Total(q, YOf)], [Total(q, XOf), Total(q, XXOf), Total(q, XYOf)]]
  }

  function Det2(m: Matrix): real
    requires Augmented(m, 2)
  {
    m[0][0] * m[1][1] - m[0][1] * m[1][0]
  }

  lemma {:induction false} CramerRow(a: real, b: real, c: real, d: real, e: real, f: real)
    requires a * d - b * c != 0.0
    ensures a * ((e * d - f * b) / (a * d - b * c)) + b * ((a * f - c * e) / (a * d - b * c)) == e
    ensures c * ((e * d - f * b) / (a * d - b * c)) + d * ((a * f - c * e) / (a * d - b * c)) == f
  {
    var det := a * d - b * c;
    var u := (e * d - f * b) / det;
    var v := (a * f - c * e) / det;
    assert u * det == e * d - f * b;
    assert v * det == a * f - c * e;
    assert (a * u + b * v) * det == a * (u * det) + b * (v * det);
    assert (c * u + d * v) * det == c * (u * det) + d * (v * det);
    assert a * (e * d - f * b) + b * (a * f - c * e) == e * det;
    assert c * (e * d - f * b) + d * (a * f - c * e) == f * det;
  }

  /** Cramer's rule on a 2 x 2 system with a non-zero determinant. */
  function Cramer2(m: Matrix): (s: seq<real>)
    requires Augmented(m, 2) && Det2(m) != 0.0
    ensures |s| == 2 && Satisfies(m, s, 2)
  {
    var det := Det2(m);
    var s := [(m[0][2] * m[1][1] - m[1][2] * m[0][1]) / det, (m[0][0] * m[1][2] - m[1][0] * m[0][2]) / det];
    CramerRow(m[0][0], m[0][1], m[1][0], m[1][1], m[0][2], m[1][2]);
    assert RowHolds(m[0], s, 2) && RowHolds(m[1], s, 2);
    s
  }

  /** A 2 x 2 system with a non-zero determinant has no other solution. */
  lemma {:induction false} Cramer2Unique(m: Matrix, y: seq<real>)
    requires Augmented(m, 2) && Det2(m) != 0.0 && |y| == 2 && Satisfies(m, y, 2)
    ensures y == Cramer2(m)
  {
    var s := Cramer2(m);
    assert RowHolds(m[0], y, 2) && RowHolds(m[1], y, 2);
    assert RowHolds(m[0], s, 2) && RowHolds(m[1], s, 2);
    var d0 := y[0] - s[0];
    var d1 := y[1] - s[1];
    assert m[0][0] * d0 + m[0][1] * d1 == 0.0;
    assert m[1][0] * d0 + m[1][1] * d1 == 0.0;
    assert Det2(m) * d0 == m[1][1] * (m[0][0] * d0 + m[0][1] * d1) - m[0][1] * (m[1][0] * d0 + m[1][1] * d1);
    assert Det2(m) * d1 == m[0][0] * (m[1][0] * d0 + m[1][1] * d1) - m[1][0] * (m[0][0] * d0 + m[0][1] * d1);
  }

  predicate AllPositiveY(pts: seq<Point>) {
    forall k :: 0 <= k < |pts| ==> pts[k].y > 0.0
  }

  predicate AllSameX(q: seq<Point>) {
    forall i, j :: 0 <= i < |q| && 0 <= j < |q| ==> q[i].x == q[j].x
  }

  /** The exponential fit as the code computes it: when the determinant is zero the
      divisions produce non-finite coefficients (`Ok(None)` here) instead of an error. */
  function ExpFitAsWritten(pts: seq<Point>, ln: real -> real, exp: real -> real): (r: Result<Option<Fitted>>)
    ensures r == Err(InsufficientData) <==> |pts| < 2
    ensures r == Err(NonPositiveY) <==> |pts| >= 2 && !AllPositiveY(pts)
  {
    if |pts| < 2 then Err(InsufficientData)
    else if exists k :: 0 <= k < |pts| && pts[k].y <= 0.0 then Err(NonPositiveY)
    else
      var m := LineSystem(Logged(pts, ln));
      if Det2(m) == 0.0 then Ok(None)
      else
        var s := Cramer2(m);
        Ok(Some(Fitted(m, [exp(s[0]), s[1]])))
  }

  /** The exponential fit with the zero determinant reported as a singular system. */
  function ExpFit(pts: seq<Point>, ln: real -> real, exp: real -> real): (r: Result<Fitted>)
    ensures r == Err(InsufficientData) <==> |pts| < 2
    ensures r == Err(NonPositiveY) <==> |pts| >= 2 && !AllPositiveY(pts)
    ensures r.Err? ==> r.error in {InsufficientData, NonPositiveY, SingularMatrix(1)}
    ensures r.Ok? ==> var m := LineSystem(Logged(pts, ln));
      r.value.system == m && Det2(m) != 0.0 && |r.value.solution| == 2
      && r.value.solution[0] == exp(Cramer2(m)[0]) && r.value.solution[1] == Cramer2(m)[1]
  {
    if |pts| < 2 then Err(InsufficientData)
    else if exists k :: 0 <= k < |pts| && pts[k].y <= 0.0 then Err(NonPositiveY)
    else
      var m := LineSystem(Logged(pts, ln));
      if Det2(m) == 0.0 then Err(SingularMatrix(1))
      else
        var s := Cramer2(m);
        Ok(Fitted(m, [exp(s[0]), s[1]]))
  }

  /** sum_k (x - x_k)^2. */
  function Dev(q: seq<Point>, x: real): real
    decreases |q|
  {
    if |q| == 0 then 0.0
    else Dev(q[..|q| - 1], x) + Times(x - q[|q| - 1].x, x - q[|q| - 1].x)
  }

  /** N * sum x^2 - (sum x)^2: the determinant of the exponential model's matrix. */
  function Spread(q: seq<Point>): real {
    (|q| as real) * Total(q, XXOf) - Total(q, XOf) * Total(q, XOf)
  }

  lemma {:induction false} TimesExpand(x: real, y: real)
    ensures Times(x - y, x - y) == x * x - 2.0 * x * y + y * y
  {
  }

  lemma {:induction false} DevExpand(q: seq<Point>, x: real)
    ensures Dev(q, x) == (|q| as real) * x * x - 2.0 * x * Total(q, XOf) + Total(q, XXOf)
    decreases |q|
  {
    if |q| > 0 {
      var q' := q[..|q| - 1];
      var p := q[|q| - 1];
      DevExpand(q', x);
      assert Total(q, XOf) == Total(q', XOf) + p.x;
      assert Total(q, XXOf) == Total(q', XXOf) + p.x * p.x;
      TimesExpand(x, p.x);
      assert Dev(q, x) == Dev(q', x) + Times(x - p.x, x - p.x);
      DevStep(Dev(q', x), |q'| as real, x, Total(q', XOf), Total(q', XXOf), p.x, Times(x - p.x, x - p.x),
        |q| as real, Total(q, XOf), Total(q, XXOf));
    } else {
      DevEmpty(|q| as real, x, Total(q, XOf), Total(q, XXOf));
    }
  }

  lemma {:induction false} DevEmpty(n: real, x: real, s1: real, s2: real)
    requires n == 0.0 && s1 == 0.0 && s2 == 0.0
    ensures 0.0 == n * x * x - 2.0 * x * s1 + s2
  {
  }

  /** The algebra of one more point in DevExpand. */
  lemma {:induction false} DevStep(d: real, n: real, x: real, s1: real, s2: real, px: real, t: real,
                                   n': real, s1': real, s2': real)
    requires d == n * x * x - 2.0 * x * s1 + s2 && t == x * x - 2.0 * x * px + px * px
    requires n' == n + 1.0 && s1' == s1 + px && s2' == s2 + px * px
    ensures d + t == n' * x * x - 2.0 * x * s1' + s2'
  {
  }

  /** The squared deviations from x sum to 0 exactly when every abscissa is x. */
  lemma {:induction false} DevZero(q: seq<Point>, x: real)
    ensures Dev(q, x) >= 0.0
    ensures Dev(q, x) == 0.0 <==> forall k :: 0 <= k < |q| ==> q[k].x == x
    decreases |q|
  {
    if |q| > 0 {
      var q' := q[..|q| - 1];
      var p := q[|q| - 1];
      DevZero(q', x);
      var d := x - p.x;
      SquarePositive(d);
      assert Dev(q, x) == Dev(q', x) + Times(d, d);
      if Dev(q, x) == 0.0 {
        assert d == 0.0;
        assert Dev(q', x) == 0.0;
        forall k | 0 <= k < |q| ensures q[k].x == x {
          if k < |q'| { assert q[k] == q'[k]; } else { assert q[k] == p; }
        }
      }
      if forall k :: 0 <= k < |q| ==> q[k].x == x {
        forall k | 0 <= k < |q'| ensures q'[k].x == x {
          assert q'[k] == q[k];
        }
        assert d == 0.0;
      }
    }
  }

  lemma {:induction false} SpreadAppend(q: seq<Point>, p: Point)
    ensures Spread(q + [p]) == Spread(q) + Dev(q, p.x)
  {
    TotalAppend(q, p, XOf);
    TotalAppend(q, p, XXOf);
    DevExpand(q, p.x);
    var n := |q| as real;
    var s1 := Total(q, XOf);
    var s2 := Total(q, XXOf);
    var x := p.x;
    assert |q + [p]| as real == n + 1.0;
    assert (n + 1.0) * (s2 + x * x) - (s1 + x) * (s1 + x)
        == (n * s2 - s1 * s1) + (n * x * x - 2.0 * x * s1 + s2);
  }

  /** The determinant is never negative, and it is zero exactly when all abscissae coincide. */
  lemma {:induction false} SpreadZero(q: seq<Point>)
    ensures Spread(q) >= 0.0
    ensures Spread(q) == 0.0 <==> AllSameX(q)
    decreases |q|
  {
    if |q| > 0 {
      var q' := q[..|q| - 1];
      var p := q[|q| - 1];
      assert q == q' + [p];
      SpreadZero(q');
      SpreadAppend(q', p);
      DevZero(q', p.x);
      if Spread(q) == 0.0 {
        forall i, j | 0 <= i < |q| && 0 <= j < |q| ensures q[i].x == q[j].x {
          assert q[i].x == p.x by { if i < |q'| { assert q[i] == q'[i]; } }
          assert q[j].x == p.x by { if j < |q'| { assert q[j] == q'[j]; } }
        }
      }
      if AllSameX(q) {
        forall i, j | 0 <= i < |q'| && 0 <= j < |q'| ensures q'[i].x == q'[j].x {
          assert q'[i] == q[i] && q'[j] == q[j];
        }
        forall k | 0 <= k < |q'| ensures q'[k].x == p.x {
          assert q'[k] == q[k];
        }
      }
    } else {
      assert Spread(q) == 0.0 * Total(q, XXOf) - 0.0 * 0.0;
    }
  }

  /** The determinant of the exponential model depends only on the abscissae. */
  lemma {:induction false} LineSystemDet(pts: seq<Point>, ln: real -> real)
    ensures Det2(LineSystem(Logged(pts, ln))) == Spread(pts)
  {
    var q := Logged(pts, ln);
    TotalsOfLogged(pts, ln, |pts|);
    assert q[..|pts|] == q && pts[..|pts|] == pts;
  }

  lemma {:induction false} TotalsOfLogged(pts: seq<Point>, ln: real -> real, k: nat)
    requires k <= |pts|
    ensures Total(Logged(pts, ln)[..k], XOf) == Total(pts[..k], XOf)
    ensures Total(Logged(pts, ln)[..k], XXOf) == Total(pts[..k], XXOf)
  {
    var q := Logged(pts, ln);
    if k > 0 {
      TotalsOfLogged(pts, ln, k - 1);
      assert q[..k][..k - 1] == q[..k - 1];
      assert pts[..k][..k - 1] == pts[..k - 1];
    }
    if k == |pts| {
      assert q[..k] == q && pts[..k] == pts;
    }
  }

  /** The corrected fit fails as singular exactly when every abscissa is the same. */
  lemma {:induction false} ExpFitSingular(pts: seq<Point>, ln: real -> real, exp: real -> real)
    ensures ExpFit(pts, ln, exp) == Err(SingularMatrix(1))
        <==> |pts| >= 2 && AllPositiveY(pts) && AllSameX(pts)
  {
    LineSystemDet(pts, ln);
    SpreadZero(pts);
  }

  /** The fitted exponent line is the unique solution of its normal equations. */
  lemma {:induction false} ExpFitSolves(pts: seq<Point>, ln: real -> real, exp: real -> real, line: seq<real>)
    requires ExpFit(pts, ln, exp).Ok?
    requires |line| == 2 && Satisfies(LineSystem(Logged(pts, ln)), line, 2)
    ensures ExpFit(pts, ln, exp).value.solution == [exp(line[0]), line[1]]
  {
    Cramer2Unique(LineSystem(Logged(pts, ln)), line);
  }

  /** Off the degenerate case the corrected fit agrees with the code as written;
      on it the code reports non-finite coefficients where the corrected fit fails. */
  lemma {:induction false} ExpFitAgrees(pts: seq<Point>, ln: real -> real, exp: real -> real)
    ensures ExpFit(pts, ln, exp).Err? && ExpFit(pts, ln, exp).error != SingularMatrix(1)
        ==> ExpFitAsWritten(pts, ln, exp) == Err(ExpFit(pts, ln, exp).error)
    ensures ExpFit(pts, ln, exp).Ok? ==> ExpFitAsWritten(pts, ln, exp) == Ok(Some(ExpFit(pts, ln, exp).value))
    ensures ExpFit(pts, ln, exp) == Err(SingularMatrix(1)) <==> ExpFitAsWritten(pts, ln, exp) == Ok(None)
  {
  }

  /** Two points with the same abscissa: the code as written returns no finite coefficients. */
  lemma {:induction false} ExpFitAsWrittenDegenerate(ln: real -> real, exp: real -> real)
    ensures ExpFitAsWritten([Point(1.0, 1.0), Point(1.0, 2.0)], ln, exp) == Ok(None)
    ensures ExpFit([Point(1.0, 1.0), Point(1.0, 2.0)], ln, exp) == Err(SingularMatrix(1))
  {
    var pts := [Point(1.0, 1.0), Point(1.0, 2.0)];
    ExpFitSingular(pts, ln, exp);
  }

  // ---------------------------------------------------------------- the fit driver

  /** What a polynomial or custom fit returns: the elimination's error, or the unique
      exact solution of the normal equations, whose residual is orthogonal to every
      basis function. */
  ghost predicate BasisFitted(basis: seq<real -> real>, pts: seq<Point>, r: Result<Fitted>) {
    var m := NormalSystem(basis, pts);
    var n := |basis|;
    (Triangulate(m, n, 0).Err? ==> r == Err(Triangulate(m, n, 0).error))
    && (Triangulate(m, n, 0).Ok? ==> r.Ok?)
    && (r.Ok? ==>
          r.value.system == m && |r.value.solution| == n && Satisfies(m, r.value.solution, n)
          && (forall y :: |y| == n && Satisfies(m, y, n) ==> y == r.value.solution)
          && Orthogonal(basis, pts, r.value.solution))
  }

  /** The fit button: at least two points, then the chosen model. */
  method Fit(model: Model, pts: seq<Point>, ln: real -> real, exp: real -> real) returns (r: Result<Fitted>)
    ensures |pts| < 2 ==> r == Err(InsufficientData)
    ensures |pts| >= 2 && model.Exponential? ==> r == ExpFit(pts, ln, exp)
    ensures |pts| >= 2 && model.Custom? && model.basis.None? ==> r == Err(MissingInput)
    ensures |pts| >= 2 && !model.Exponential? && BasisOf(model).Some? ==> BasisFitted(BasisOf(model).value, pts, r)
  {
    if |pts| < 2 {
      return Err(InsufficientData);
    }
    if model.Exponential? {
      return ExpFit(pts, ln, exp);
    }
    var b := BasisOf(model);
    if b.None? {
      return Err(MissingInput);
    }
    var basis := b.value;
    var m := NormalSystem(basis, pts);
    var x := SolveNormal(m, |basis|);
    if x.Err? {
      return Err(x.error);
    }
    NormalEquationsOrthogonal(basis, pts, x.value);
    return Ok(Fitted(m, x.value));
  }
}
