/** Vocabulary shared by every solver: the failure taxonomy, a Result wrapper,
    dense matrices over the reals and the dot product with its algebra. */
module Common {

  /** The fatal outcomes a solve call can end in. */
  datatype Failure =
    | MissingInput                  // a blank field the algorithm needs
    | InvalidTolerance              // tolerance <= 0
    | DimensionMismatch             // add/subtract/multiply with incompatible shapes
    | NotSquare                     // determinant of a non-square matrix
    | SingularMatrix(column: nat)   // no usable pivot in this column
    | ZeroDiagonal(row: nat)        // iterative methods need a non-zero diagonal
    | NoSignChange                  // bracket ends do not straddle a root
    | DivisionByZero                // false-position denominator vanished
    | ZeroDerivative                // Newton-Raphson hit a flat tangent
    | InsufficientData              // fewer than two points
    | NonPositiveY                  // exponential fit of a non-positive ordinate
    | DuplicateAbscissa             // interpolation through two equal x values
    | ZeroStepSize                  // finite differences with h = 0
    | NonPositiveSegments           // integration with n <= 0
    | OddSegmentCount               // Simpson 1/3 with odd n
    | SegmentsNotMultipleOfThree    // Simpson 3/8 with n not divisible by 3
    | NonPositiveStep               // RK4 with h <= 0
    | EmptyInterval                 // RK4 with x_end <= x_start
    | StepSizeTooSmall              // RK4 would need more than 100 steps

  datatype Result<T> = Ok(value: T) | Err(error: Failure)

  datatype Option<T> = None | Some(value: T)

  /** One (x, y) data point of a fit or an interpolation. */
  datatype Point = Point(x: real, y: real)

  function Abs(x: real): real {
    if x < 0.0 then -x else x
  }

  lemma {:induction false} AbsMul(a: real, b: real)
    ensures Abs(a * b) == Abs(a) * Abs(b)
  {
    if a < 0.0 && b < 0.0 { assert a * b == (-a) * (-b); }
  }

  /** Math.max on two reals. */
  function Max(a: real, b: real): real {
    if a < b then b else a
  }

  /** Rows outer, columns inner. */
  type Matrix = seq<seq<real>>

  predicate IsMatrix(m: Matrix, rows: nat, cols: nat) {
    |m| == rows && forall i :: 0 <= i < rows ==> |m[i]| == cols
  }

  /** Sum of u[j] * v[j] for lo <= j < hi, accumulated left to right. */
  function Dot(u: seq<real>, v: seq<real>, lo: nat, hi: nat): real
    requires lo <= hi <= |u| && hi <= |v|
    decreases hi - lo
  {
    if lo == hi then 0.0 else Dot(u, v, lo, hi - 1) + u[hi - 1] * v[hi - 1]
  }

  /** Peeling the first term instead of the last gives the same sum. */
  lemma {:induction false} DotFront(u: seq<real>, v: seq<real>, lo: nat, hi: nat)
    requires lo < hi <= |u| && hi <= |v|
    ensures Dot(u, v, lo, hi) == u[lo] * v[lo] + Dot(u, v, lo + 1, hi)
    decreases hi - lo
  {
    if lo + 1 < hi {
      DotFront(u, v, lo, hi - 1);
    }
  }

  lemma {:induction false} DotSplit(u: seq<real>, v: seq<real>, lo: nat, mid: nat, hi: nat)
    requires lo <= mid <= hi <= |u| && hi <= |v|
    ensures Dot(u, v, lo, hi) == Dot(u, v, lo, mid) + Dot(u, v, mid, hi)
    decreases hi - mid
  {
    if mid < hi {
      DotSplit(u, v, lo, mid, hi - 1);
    }
  }

  /** The sum only looks at the second vector inside [lo, hi). */
  lemma {:induction false} DotFrame(u: seq<real>, v: seq<real>, w: seq<real>, lo: nat, hi: nat)
    requires lo <= hi <= |u| && hi <= |v| && hi <= |w|
    requires forall j :: lo <= j < hi ==> v[j] == w[j]
    ensures Dot(u, v, lo, hi) == Dot(u, w, lo, hi)
    decreases hi - lo
  {
    if lo < hi {
      DotFrame(u, v, w, lo, hi - 1);
    }
  }

  /** A row whose entries in [lo, hi) are all zero contributes nothing. */
  lemma {:induction false} DotZero(u: seq<real>, v: seq<real>, lo: nat, hi: nat)
    requires lo <= hi <= |u| && hi <= |v|
    requires forall j :: lo <= j < hi ==> u[j] == 0.0
    ensures Dot(u, v, lo, hi) == 0.0
    decreases hi - lo
  {
    if lo < hi {
      DotZero(u, v, lo, hi - 1);
    }
  }

  /** Dot is linear in its first argument. */
  lemma {:induction false} DotLinear(a: seq<real>, b: seq<real>, c: seq<real>, f: real, v: seq<real>, lo: nat, hi: nat)
    requires lo <= hi <= |a| && |a| == |b| == |c| && hi <= |v|
    requires forall j :: lo <= j < hi ==> c[j] == a[j] - f * b[j]
    ensures Dot(c, v, lo, hi) == Dot(a, v, lo, hi) - f * Dot(b, v, lo, hi)
    decreases hi - lo
  {
    if lo < hi {
      DotLinear(a, b, c, f, v, lo, hi - 1);
      assert c[hi - 1] * v[hi - 1] == a[hi - 1] * v[hi - 1] - f * (b[hi - 1] * v[hi - 1]);
    }
  }

  /** Dividing a row by c divides its dot product by c. */
  lemma {:induction false} DotScale(a: seq<real>, c: seq<real>, p: real, v: seq<real>, lo: nat, hi: nat)
    requires p != 0.0
    requires lo <= hi <= |a| && |a| == |c| && hi <= |v|
    requires forall j :: lo <= j < hi ==> c[j] == a[j] / p
    ensures Dot(c, v, lo, hi) == Dot(a, v, lo, hi) / p
    decreases hi - lo
  {
    if lo < hi {
      DotScale(a, c, p, v, lo, hi - 1);
      assert c[hi - 1] * v[hi - 1] == (a[hi - 1] * v[hi - 1]) / p;
    }
  }

  /** A product kept as a term of its own: the solver reasons about the sign of a square
      far more reliably through these lemmas than through the raw product. */
  function Times(a: real, b: real): real { a * b }

  lemma {:induction false} TimesPos(a: real, b: real)
    requires a > 0.0 && b > 0.0
    ensures Times(a, b) > 0.0
  {
  }

  lemma {:induction false} TimesNeg(a: real, b: real)
    requires a < 0.0 && b < 0.0
    ensures Times(a, b) > 0.0
  {
    assert a * b == (-a) * (-b);
  }

  lemma {:induction false} SquarePositive(d: real)
    ensures Times(d, d) >= 0.0
    ensures d != 0.0 ==> Times(d, d) > 0.0
  {
    if d > 0.0 { TimesPos(d, d); } else if d < 0.0 { TimesNeg(d, d); }
  }

  /** Dividing by a non-zero d undoes multiplying by it. */
  lemma {:induction false} DivideOut(d: real, v: real, w: real)
    requires d != 0.0 && w == d * v
    ensures w / d == v
  {
  }

  /** A value that leaves p unchanged when multiplied by it is 1, for p != 0. */
  lemma {:induction false} UnitQuotient(v: real, p: real, q: real)
    requires p != 0.0 && p == q && v * p == q
    ensures v == 1.0
  {
    DivideOut(p, v, p);
  }

  /** A non-zero factor cancels from both sides of an equation. */
  lemma {:induction false} Cancel(d: real, p: real, q: real, r: real, c: real)
    requires d != 0.0 && d * p + r == c && d * q + r == c
    ensures p == q
  {
    DivideOut(d, p, d * p);
    DivideOut(d, q, d * q);
  }

  lemma {:induction false} TimesAssoc(a: real, b: real, c: real)
    ensures Times(a, Times(b, c)) == Times(Times(a, b), c)
  {
  }

  lemma {:induction false} TimesOne(a: real)
    ensures Times(1.0, a) == Times(a, 1.0) == a
  {
  }

  lemma {:induction false} TimesZero(a: real, b: real)
    requires a == 0.0 || b == 0.0
    ensures Times(a, b) == 0.0
  {
  }
}
