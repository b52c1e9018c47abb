/** Polynomial interpolation through the data points: Newton's divided-difference
    table with the Newton-form evaluation, and the Lagrange form. */
module Interpolation {
  import opened Common

  datatype InterpMethod = NewtonForm | LagrangeForm

  /** The estimate at the requested x, and the divided-difference table (empty for Lagrange). */
  datatype Interpolated = Interpolated(value: real, table: Matrix)

  /** Points i and j have different abscissae. */
  predicate Apart(pts: seq<Point>, i: nat, j: nat)
    requires i < |pts| && j < |pts|
  {
    pts[i].x != pts[j].x
  }

  /** No two points share an abscissa. */
  predicate Distinct(pts: seq<Point>) {
    forall i, j {:trigger Apart(pts, i, j)} :: 0 <= i < j < |pts| ==> Apart(pts, i, j)
  }

  // ---------------------------------------------------------------- divided differences

  /** D[i][j] = (D[i+1][j-1] - D[i][j-1]) / (x_{i+j} - x_i), D[i][0] = y_i. */
  function Divided(pts: seq<Point>, i: nat, j: nat): real
    requires i + j < |pts| && Distinct(pts)
    decreases j
  {
    if j == 0 then pts[i].y
    else
      assert Apart(pts, i, i + j);
      (Divided(pts, i + 1, j - 1) - Divided(pts, i, j - 1)) / (pts[i + j].x - pts[i].x)
  }

  /** Entry (i, j) of t obeys the divided-difference recurrence, with the division cleared. */
  predicate Recurs(t: Matrix, pts: seq<Point>, i: nat, j: nat)
    requires IsMatrix(t, |pts|, |pts|) && 0 < j && i + j < |pts|
  {
    Times(t[i][j], pts[i + j].x - pts[i].x) == t[i + 1][j - 1] - t[i][j - 1]
  }

  /** Entries (i, 1) .. (i, m) of t obey the recurrence. */
  predicate RecursAlong(t: Matrix, pts: seq<Point>, i: nat, m: nat)
    requires IsMatrix(t, |pts|, |pts|) && i + m < |pts|
  {
    forall k {:trigger Recurs(t, pts, i, k)} :: 0 < k <= m ==> Recurs(t, pts, i, k)
  }

  /** t is a divided-difference table of the points: column 0 holds the ordinates and
      every entry above the anti-diagonal obeys the recurrence. */
  predicate DividedTable(t: Matrix, pts: seq<Point>) {
    && IsMatrix(t, |pts|, |pts|)
    && (forall i :: 0 <= i < |pts| ==> t[i][0] == pts[i].y)
    && (forall i, j {:trigger Recurs(t, pts, i, j)} :: 0 <= i < |pts| && 0 < j < |pts| && i + j < |pts| ==> Recurs(t, pts, i, j))
  }

  /** The n x n table the code fills: entries with i + j >= n stay 0. */
  function Table(pts: seq<Point>): (t: Matrix)
    requires Distinct(pts)
    ensures DividedTable(t, pts)
    ensures forall i, j :: 0 <= i < |pts| && 0 <= j < |pts| && i + j >= |pts| ==> t[i][j] == 0.0
  {
    var n := |pts|;
    var t := seq(n, i requires 0 <= i < n =>
      seq(n, j requires 0 <= j < n => if i + j < n then Divided(pts, i, j) else 0.0));
    assert forall i, j {:trigger Recurs(t, pts, i, j)} :: 0 <= i < n && 0 < j < n && i + j < n ==> Recurs(t, pts, i, j) by {
      forall i: nat, j: nat | 0 < j && i + j < n
        ensures Recurs(t, pts, i, j)
      {
        DividedStep(pts, i, j);
      }
    }
    t
  }

  /** The recurrence with the division cleared. */
  lemma {:induction false} DividedStep(pts: seq<Point>, i: nat, j: nat)
    requires 0 < j && i + j < |pts| && Distinct(pts)
    ensures Times(Divided(pts, i, j), pts[i + j].x - pts[i].x) == Divided(pts, i + 1, j - 1) - Divided(pts, i, j - 1)
  {
    assert Apart(pts, i, i + j);
  }

  // ---------------------------------------------------------------- Newton form

  /** prod_{lo <= k < hi} (x - x_k). */
  function Omega(pts: seq<Point>, x: real, lo: nat, hi: nat): real
    requires lo <= hi <= |pts|
    decreases hi - lo
  {
    if lo == hi then 1.0 else Times(Omega(pts, x, lo, hi - 1), x - pts[hi - 1].x)
  }

  lemma {:induction false} OmegaFront(pts: seq<Point>, x: real, lo: nat, hi: nat)
    requires lo < hi <= |pts|
    ensures Omega(pts, x, lo, hi) == Times(x - pts[lo].x, Omega(pts, x, lo + 1, hi))
    decreases hi - lo
  {
    if lo + 1 < hi {
      OmegaFront(pts, x, lo, hi - 1);
      TimesAssoc(x - pts[lo].x, Omega(pts, x, lo + 1, hi - 1), x - pts[hi - 1].x);
    } else {
      TimesOne(x - pts[lo].x);
    }
  }

  /** The product vanishes at each of its own nodes. */
  lemma {:induction false} OmegaAtNode(pts: seq<Point>, lo: nat, hi: nat, t: nat)
    requires lo <= t < hi <= |pts|
    ensures Omega(pts, pts[t].x, lo, hi) == 0.0
    decreases hi - lo
  {
    if t < hi - 1 {
      OmegaAtNode(pts, lo, hi - 1, t);
    }
    TimesZero(Omega(pts, pts[t].x, lo, hi - 1), pts[t].x - pts[hi - 1].x);
  }

  /** sum_{l < m} t[i][l] * prod_{i <= k < i+l} (x - x_k): with row i of a divided-difference
      table, the Newton polynomial through the m points i .. i+m-1 (the code uses row 0). */
  function Newton(t: Matrix, pts: seq<Point>, x: real, i: nat, m: nat): real
    requires IsMatrix(t, |pts|, |pts|) && i + m <= |pts|
  {
    if m == 0 then 0.0
    else Newton(t, pts, x, i, m - 1) + Times(t[i][m - 1], Omega(pts, x, i, i + m - 1))
  }

  /** The algebra of one step of NewtonShift, over plain reals: u = x - x_i, e = x_{i+m-1} - x_i,
      v = x - x_{i+m-1}, p the product over the shared nodes. */
  lemma {:induction false} ShiftAlgebra(a: real, b: real, ba: real, p: real, dd: real, e: real, u: real, v: real,
                                        lo: real, up: real, lo1: real, up1: real)
    requires up - lo == Times(dd, p) && Times(a, e) == dd && u == e + v && ba == b - a
    requires up1 == up + Times(b, Times(p, v)) && lo1 == lo + Times(a, Times(u, p))
    ensures up1 - lo1 == Times(ba, Times(p, v))
  {
    assert a * (u * p) == (a * e) * p + a * (p * v);
    assert ba * (p * v) == b * (p * v) - a * (p * v);
  }

  /** The Newton polynomials through i+1 .. i+m and through i .. i+m-1 differ by
      (t[i+1][m-1] - t[i][m-1]) * prod_{i < k < i+m} (x - x_k). */
  lemma {:induction false} NewtonShift(t: Matrix, pts: seq<Point>, x: real, i: nat, m: nat)
    requires IsMatrix(t, |pts|, |pts|) && 0 < m && i + m < |pts| && RecursAlong(t, pts, i, m - 1)
    ensures Newton(t, pts, x, i + 1, m) - Newton(t, pts, x, i, m)
         == Times(t[i + 1][m - 1] - t[i][m - 1], Omega(pts, x, i + 1, i + m))
  {
    if m == 1 {
      assert Newton(t, pts, x, i + 1, 0) == 0.0 && Newton(t, pts, x, i, 0) == 0.0;
    } else {
      NewtonShift(t, pts, x, i, m - 1);
      OmegaFront(pts, x, i, i + m - 1);
      assert Recurs(t, pts, i, m - 1);
      ShiftAlgebra(t[i][m - 1], t[i + 1][m - 1], t[i + 1][m - 1] - t[i][m - 1],
        Omega(pts, x, i + 1, i + m - 1), t[i + 1][m - 2] - t[i][m - 2],
        pts[i + m - 1].x - pts[i].x, x - pts[i].x, x - pts[i + m - 1].x,
        Newton(t, pts, x, i, m - 1), Newton(t, pts, x, i + 1, m - 1),
        Newton(t, pts, x, i, m), Newton(t, pts, x, i + 1, m));
    }
  }

  lemma {:induction false} NodeAlgebra(a: real, u: real, p: real, dd: real, lo: real, up: real, lo1: real)
    requires Times(a, u) == dd && up - lo == Times(dd, p)
    requires lo1 == lo + Times(a, Times(u, p))
    ensures lo1 == up
  {
    assert a * (u * p) == (a * u) * p;
  }

  /** The step of NewtonInterpolates at the last node i+m-1, from the Newton polynomial
      through i+1 .. i+m-1 passing through it. */
  lemma {:induction false} LastNode(t: Matrix, pts: seq<Point>, i: nat, m: nat)
    requires IsMatrix(t, |pts|, |pts|) && 1 < m && i + m <= |pts| && RecursAlong(t, pts, i, m - 1)
    requires Apart(pts, i, i + m - 1)
    requires Newton(t, pts, pts[i + m - 1].x, i + 1, m - 1) == pts[i + m - 1].y
    ensures Newton(t, pts, pts[i + m - 1].x, i, m) == pts[i + m - 1].y
  {
    NewtonShift(t, pts, pts[i + m - 1].x, i, m - 1);
    OmegaFront(pts, pts[i + m - 1].x, i, i + m - 1);
    assert Recurs(t, pts, i, m - 1);
    NodeAlgebra(t[i][m - 1], pts[i + m - 1].x - pts[i].x, Omega(pts, pts[i + m - 1].x, i + 1, i + m - 1),
      t[i + 1][m - 2] - t[i][m - 2], Newton(t, pts, pts[i + m - 1].x, i, m - 1),
      Newton(t, pts, pts[i + m - 1].x, i + 1, m - 1), Newton(t, pts, pts[i + m - 1].x, i, m));
  }

  /** With row i of a divided-difference table, the Newton polynomial through points
      i .. i+m-1 passes through each of them. */
  lemma {:induction false} NewtonInterpolates(t: Matrix, pts: seq<Point>, i: nat, m: nat, k: nat)
    requires DividedTable(t, pts) && Distinct(pts) && i <= k < i + m <= |pts|
    ensures Newton(t, pts, pts[k].x, i, m) == pts[k].y
    decreases m
  {
    if m == 1 {
      assert Newton(t, pts, pts[k].x, i, 0) == 0.0;
    } else if k < i + m - 1 {
      NewtonInterpolates(t, pts, i, m - 1, k);
      OmegaAtNode(pts, i, i + m - 1, k);
    } else {
      NewtonInterpolates(t, pts, i + 1, m - 1, k);
      assert Apart(pts, i, k);
      LastNode(t, pts, i, m);
    }
  }

  // ---------------------------------------------------------------- Lagrange form

  /** y_i * prod_{j < J, j != i} (x - x_j) / (x_i - x_j), multiplied in the code's order. */
  function LagrangeTerm(pts: seq<Point>, x: real, i: nat, J: nat): real
    requires i < |pts| && J <= |pts| && Distinct(pts)
  {
    if J == 0 then pts[i].y
    else if J - 1 == i then LagrangeTerm(pts, x, i, J - 1)
    else
      assert if i < J - 1 then Apart(pts, i, J - 1) else Apart(pts, J - 1, i);
      LagrangeTerm(pts, x, i, J - 1) * ((x - pts[J - 1].x) / (pts[i].x - pts[J - 1].x))
  }

  /** sum_{i < I} of the full Lagrange terms. */
  function LagrangeSum(pts: seq<Point>, x: real, I: nat): real
    requires I <= |pts| && Distinct(pts)
  {
    if I == 0 then 0.0 else LagrangeSum(pts, x, I - 1) + LagrangeTerm(pts, x, I - 1, |pts|)
  }

  /** At its own node a Lagrange term keeps y_i; at another node it vanishes once
      the factor for that node has been applied. */
  lemma {:induction false} LagrangeTermAtNode(pts: seq<Point>, i: nat, m: nat, J: nat)
    requires i < |pts| && m < |pts| && J <= |pts| && Distinct(pts)
    ensures i == m ==> LagrangeTerm(pts, pts[m].x, i, J) == pts[i].y
    ensures i != m && m < J ==> LagrangeTerm(pts, pts[m].x, i, J) == 0.0
  {
    if J > 0 {
      LagrangeTermAtNode(pts, i, m, J - 1);
      if J - 1 != i {
        assert pts[i].x != pts[J - 1].x by {
          if i < J - 1 { assert Apart(pts, i, J - 1); } else { assert Apart(pts, J - 1, i); }
        }
      }
    }
  }

  lemma {:induction false} LagrangeSumAtNode(pts: seq<Point>, m: nat, I: nat)
    requires m < |pts| && I <= |pts| && Distinct(pts)
    ensures LagrangeSum(pts, pts[m].x, I) == if m < I then pts[m].y else 0.0
  {
    if I > 0 {
      LagrangeSumAtNode(pts, m, I - 1);
      LagrangeTermAtNode(pts, I - 1, m, |pts|);
    }
  }

  /** The Lagrange polynomial passes through every data point. */
  lemma {:induction false} LagrangeInterpolates(pts: seq<Point>, m: nat)
    requires m < |pts| && Distinct(pts)
    ensures LagrangeSum(pts, pts[m].x, |pts|) == pts[m].y
  {
    LagrangeSumAtNode(pts, m, |pts|);
  }

  /** Both forms give the same estimate at every data abscissa. */
  lemma {:induction false} FormsAgreeAtNodes(pts: seq<Point>, m: nat)
    requires m < |pts| && Distinct(pts)
    ensures Newton(Table(pts), pts, pts[m].x, 0, |pts|) == LagrangeSum(pts, pts[m].x, |pts|)
  {
    NewtonInterpolates(Table(pts), pts, 0, |pts|, m);
    LagrangeInterpolates(pts, m);
  }

  // ---------------------------------------------------------------- the interpolate button

  /** Some pair of points shares an abscissa, so some denominator of either form is zero. */
  predicate HasDuplicate(pts: seq<Point>) {
    exists i, j :: 0 <= i < j < |pts| && !Apart(pts, i, j)
  }

  /** The code as written: with a repeated abscissa a division by zero makes the
      estimate non-finite, and it is still reported (`Ok(None)` here). */
  function InterpolateAsWritten(how: InterpMethod, pts: seq<Point>, estimate: Option<real>)
    : (r: Result<Option<Interpolated>>)
    ensures r == Err(InsufficientData) <==> |pts| < 2
    ensures r == Err(MissingInput) <==> |pts| >= 2 && estimate.None?
  {
    if |pts| < 2 then Err(InsufficientData)
    else if estimate.None? then Err(MissingInput)
    else if HasDuplicate(pts) then Ok(None)
    else
      var x := estimate.value;
      if how.NewtonForm? then Ok(Some(Interpolated(Newton(Table(pts), pts, x, 0, |pts|), Table(pts))))
      else Ok(Some(Interpolated(LagrangeSum(pts, x, |pts|), [])))
  }

  /** The interpolation with a repeated abscissa reported as an error. */
  function Interpolate(how: InterpMethod, pts: seq<Point>, estimate: Option<real>): (r: Result<Interpolated>)
    ensures r == Err(InsufficientData) <==> |pts| < 2
    ensures r == Err(MissingInput) <==> |pts| >= 2 && estimate.None?
    ensures r == Err(DuplicateAbscissa) <==> |pts| >= 2 && estimate.Some? && !Distinct(pts)
    ensures r.Ok? <==> |pts| >= 2 && estimate.Some? && Distinct(pts)
    ensures r.Ok? && how.NewtonForm? ==> r.value.table == Table(pts)
    ensures r.Ok? && how.NewtonForm? ==> r.value.value == Newton(r.value.table, pts, estimate.value, 0, |pts|)
    ensures r.Ok? && how.LagrangeForm? ==> r.value.value == LagrangeSum(pts, estimate.value, |pts|)
    ensures r.Ok? && how.LagrangeForm? ==> r.value.table == []
    ensures r.Ok? ==> forall m :: 0 <= m < |pts| && pts[m].x == estimate.value ==> r.value.value == pts[m].y
  {
    if |pts| < 2 then Err(InsufficientData)
    else if estimate.None? then Err(MissingInput)
    else if HasDuplicate(pts) then Err(DuplicateAbscissa)
    else
      var x := estimate.value;
      if how.NewtonForm? then
        InterpolatesEverywhere(pts, x);
        Ok(Interpolated(Newton(Table(pts), pts, x, 0, |pts|), Table(pts)))
      else
        InterpolatesEverywhere(pts, x);
        Ok(Interpolated(LagrangeSum(pts, x, |pts|), []))
  }

  lemma {:induction false} InterpolatesEverywhere(pts: seq<Point>, x: real)
    requires Distinct(pts)
    ensures forall m :: 0 <= m < |pts| && pts[m].x == x ==> Newton(Table(pts), pts, x, 0, |pts|) == pts[m].y
    ensures forall m :: 0 <= m < |pts| && pts[m].x == x ==> LagrangeSum(pts, x, |pts|) == pts[m].y
  {
    forall m | 0 <= m < |pts| && pts[m].x == x
      ensures Newton(Table(pts), pts, x, 0, |pts|) == pts[m].y && LagrangeSum(pts, x, |pts|) == pts[m].y
    {
      NewtonInterpolates(Table(pts), pts, 0, |pts|, m);
      LagrangeInterpolates(pts, m);
    }
  }

  /** Off repeated abscissae the corrected interpolation is the code's; on them the
      code reports a non-finite estimate where the corrected one fails. */
  lemma {:induction false} InterpolateAgrees(how: InterpMethod, pts: seq<Point>, estimate: Option<real>)
    ensures Interpolate(how, pts, estimate).Ok?
        ==> InterpolateAsWritten(how, pts, estimate) == Ok(Some(Interpolate(how, pts, estimate).value))
    ensures Interpolate(how, pts, estimate) == Err(DuplicateAbscissa)
        <==> InterpolateAsWritten(how, pts, estimate) == Ok(None)
  {
  }

  /** Two points at x = 1: the code as written has no finite estimate to give. */
  lemma {:induction false} InterpolateAsWrittenDuplicate(how: InterpMethod)
    ensures InterpolateAsWritten(how, [Point(1.0, 1.0), Point(1.0, 2.0)], Some(0.0)) == Ok(None)
    ensures Interpolate(how, [Point(1.0, 1.0), Point(1.0, 2.0)], Some(0.0)) == Err(DuplicateAbscissa)
  {
    var pts := [Point(1.0, 1.0), Point(1.0, 2.0)];
    assert !Apart(pts, 0, 1);
  }
}
