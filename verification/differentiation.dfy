/** Finite-difference derivatives of a user function at a point: first and second order,
    forward, backward and central, with the absolute and relative error against the
    analytic derivative. */
module Differentiation {
  import opened Common

  datatype Scheme = Forward | Backward | Central

  datatype Order = First | Second

  /** The reported figures: the estimate, the analytic value it is compared with, and the
      two error measures (the relative one in percent). */
  datatype Estimate = Estimate(approx: real, exact: real, absError: real, relError: real)

  /** The six difference quotients. */
  function Difference(f: real -> real, x: real, h: real, order: Order, scheme: Scheme): real
    requires h != 0.0
  {
    match order
    case First =>
      (match scheme
       case Forward => (f(x + h) - f(x)) / h
       case Backward => (f(x) - f(x - h)) / h
       case Central => (f(x + h) - f(x - h)) / (2.0 * h))
    case Second =>
      (match scheme
       case Central => (f(x + h) - 2.0 * f(x) + f(x - h)) / (h * h)
       case Forward => (f(x + 2.0 * h) - 2.0 * f(x + h) + f(x)) / (h * h)
       case Backward => (f(x) - 2.0 * f(x - h) + f(x - 2.0 * h)) / (h * h))
  }

  /** |true - approx| / |true| in percent, or 0 when the true value is 0. */
  function RelativeError(exact: real, approx: real): (r: real)
    ensures r >= 0.0
    ensures exact == 0.0 ==> r == 0.0
    ensures exact != 0.0 ==> r * Abs(exact) == 100.0 * Abs(exact - approx)
  {
    if exact != 0.0 then
      var q := Abs(exact - approx) / exact;
      AbsMul(q, exact);
      Abs(q) * 100.0
    else 0.0
  }

  /** The differentiate button. The analytic derivative of the requested order at x is
      `analytic`, or None when the expression could not be differentiated symbolically,
      in which case the true value is taken as 0. */
  function Differentiate(f: Option<real -> real>, x: Option<real>, h: Option<real>,
                         order: Order, scheme: Scheme, analytic: Option<real>): (r: Result<Estimate>)
    ensures r == Err(MissingInput) <==> f.None? || x.None? || h.None?
    ensures r == Err(ZeroStepSize) <==> f.Some? && x.Some? && h.Some? && h.value == 0.0
    ensures r.Ok? <==> f.Some? && x.Some? && h.Some? && h.value != 0.0
    ensures r.Ok? ==> r.value.exact == (if analytic.Some? then analytic.value else 0.0)
    ensures r.Ok? ==> r.value.approx == Difference(f.value, x.value, h.value, order, scheme)
    ensures r.Ok? ==> r.value.absError == Abs(r.value.exact - r.value.approx)
    ensures r.Ok? ==> r.value.absError >= 0.0 && r.value.relError >= 0.0
    ensures r.Ok? && r.value.exact == 0.0 ==> r.value.relError == 0.0
    ensures r.Ok? ==> (r.value.absError == 0.0 <==> r.value.approx == r.value.exact)
    ensures r.Ok? && r.value.exact != 0.0 ==> r.value.relError * Abs(r.value.exact) == 100.0 * r.value.absError
  {
    if f.None? || x.None? || h.None? then Err(MissingInput)
    else if h.value == 0.0 then Err(ZeroStepSize)
    else
      var approx := Difference(f.value, x.value, h.value, order, scheme);
      var exact := if analytic.Some? then analytic.value else 0.0;
      Ok(Estimate(approx, exact, Abs(exact - approx), RelativeError(exact, approx)))
  }

  // ---------------------------------------------------------------- relations between schemes

  /** The first-order central quotient is the mean of the forward and backward ones. */
  lemma {:induction false} CentralIsMean(f: real -> real, x: real, h: real)
    requires h != 0.0
    ensures Difference(f, x, h, First, Central)
         == (Difference(f, x, h, First, Forward) + Difference(f, x, h, First, Backward)) / 2.0
  {
    MeanOfQuotients(f(x + h), f(x), f(x - h), h);
  }

  lemma {:induction false} MeanOfQuotients(a: real, b: real, c: real, h: real)
    requires h != 0.0
    ensures (a - c) / (2.0 * h) == ((a - b) / h + (b - c) / h) / 2.0
  {
    var p, q := (a - b) / h, (b - c) / h;
    assert p * h == a - b && q * h == b - c;
    assert a - c == (2.0 * h) * ((p + q) / 2.0);
    DivideOut(2.0 * h, (p + q) / 2.0, a - c);
  }

  /** The second-order central quotient is the difference of the first-order forward and
      backward quotients, divided by h. */
  lemma {:induction false} SecondIsDifferenceOfFirst(f: real -> real, x: real, h: real)
    requires h != 0.0
    ensures Difference(f, x, h, Second, Central)
         == (Difference(f, x, h, First, Forward) - Difference(f, x, h, First, Backward)) / h
  {
    var u := f(x + h) - f(x);
    var v := f(x) - f(x - h);
    assert f(x + h) - 2.0 * f(x) + f(x - h) == u - v;
    var w := (u / h - v / h) / h;
    assert u / h - v / h == w * h;
    assert u - v == (u / h - v / h) * h;
    assert u - v == (h * h) * w;
    DivideBySquare(h, w, u - v);
  }

  /** The second-order forward and backward quotients are the central one taken one step
      ahead and one step behind. */
  lemma {:induction false} SecondOrderShifts(f: real -> real, x: real, h: real)
    requires h != 0.0
    ensures Difference(f, x, h, Second, Forward) == Difference(f, x + h, h, Second, Central)
    ensures Difference(f, x, h, Second, Backward) == Difference(f, x - h, h, Second, Central)
  {
    assert (x + h) + h == x + 2.0 * h && (x + h) - h == x;
    assert (x - h) - h == x - 2.0 * h && (x - h) + h == x;
  }

  // ---------------------------------------------------------------- exactness on quadratics

  function Quadratic(c0: real, c1: real, c2: real): real -> real {
    t => c0 + c1 * t + c2 * (t * t)
  }

  /** Dividing by the square of a non-zero step undoes multiplying by it. */
  lemma {:induction false} DivideBySquare(h: real, v: real, w: real)
    requires h != 0.0 && w == (h * h) * v
    ensures w / (h * h) == v
  {
    DivideBySquareTimes(h, v, w);
  }

  lemma {:induction false} DivideBySquareTimes(h: real, v: real, w: real)
    requires h != 0.0 && w == Times(h, h) * v
    ensures Times(h, h) != 0.0 && w / Times(h, h) == v
  {
    SquarePositive(h);
    DivideOut(Times(h, h), v, w);
  }

  /** The second difference of c0 + c1 t + c2 t^2 around y, over plain reals. */
  lemma {:induction false} SecondDifferenceOfQuadratic(c0: real, c1: real, c2: real, y: real, h: real)
    ensures (c0 + c1 * (y + h) + c2 * ((y + h) * (y + h))) - 2.0 * (c0 + c1 * y + c2 * (y * y))
          + (c0 + c1 * (y - h) + c2 * ((y - h) * (y - h))) == (h * h) * (2.0 * c2)
  {
    var sp, s0, sm := (y + h) * (y + h), y * y, (y - h) * (y - h);
    assert sp + sm - 2.0 * s0 == 2.0 * (h * h);
    assert c2 * sp + c2 * sm - 2.0 * (c2 * s0) == c2 * (sp + sm - 2.0 * s0);
  }

  /** On c0 + c1 t + c2 t^2 the first-order quotients are off the derivative c1 + 2 c2 x by
      exactly c2 h, -c2 h and 0: the central one is exact. */
  lemma {:induction false} FirstOrderOnQuadratic(c0: real, c1: real, c2: real, x: real, h: real)
    requires h != 0.0
    ensures Difference(Quadratic(c0, c1, c2), x, h, First, Forward) == c1 + 2.0 * c2 * x + c2 * h
    ensures Difference(Quadratic(c0, c1, c2), x, h, First, Backward) == c1 + 2.0 * c2 * x - c2 * h
    ensures Difference(Quadratic(c0, c1, c2), x, h, First, Central) == c1 + 2.0 * c2 * x
  {
    var q := Quadratic(c0, c1, c2);
    assert (x + h) * (x + h) == x * x + 2.0 * x * h + h * h;
    assert (x - h) * (x - h) == x * x - 2.0 * x * h + h * h;
    assert q(x + h) - q(x) == h * (c1 + 2.0 * c2 * x + c2 * h);
    DivideOut(h, c1 + 2.0 * c2 * x + c2 * h, q(x + h) - q(x));
    assert q(x) - q(x - h) == h * (c1 + 2.0 * c2 * x - c2 * h);
    DivideOut(h, c1 + 2.0 * c2 * x - c2 * h, q(x) - q(x - h));
    assert q(x + h) - q(x - h) == (2.0 * h) * (c1 + 2.0 * c2 * x);
    DivideOut(2.0 * h, c1 + 2.0 * c2 * x, q(x + h) - q(x - h));
  }

  /** A straight line's slope is recovered exactly by every first-order scheme. */
  lemma {:induction false} FirstOrderExactOnLines(c0: real, c1: real, x: real, h: real, scheme: Scheme)
    requires h != 0.0
    ensures Difference(Quadratic(c0, c1, 0.0), x, h, First, scheme) == c1
  {
    FirstOrderOnQuadratic(c0, c1, 0.0, x, h);
  }

  lemma {:induction false} SecondCentralOnQuadratic(c0: real, c1: real, c2: real, y: real, h: real)
    requires h != 0.0
    ensures Difference(Quadratic(c0, c1, c2), y, h, Second, Central) == 2.0 * c2
  {
    var q := Quadratic(c0, c1, c2);
    SecondDifferenceOfQuadratic(c0, c1, c2, y, h);
    assert q(y + h) - 2.0 * q(y) + q(y - h) == (h * h) * (2.0 * c2);
    DivideBySquare(h, 2.0 * c2, q(y + h) - 2.0 * q(y) + q(y - h));
  }

  /** Every second-order scheme recovers the second derivative 2 c2 of a quadratic exactly. */
  lemma {:induction false} SecondOrderExactOnQuadratics(c0: real, c1: real, c2: real, x: real, h: real, scheme: Scheme)
    requires h != 0.0
    ensures Difference(Quadratic(c0, c1, c2), x, h, Second, scheme) == 2.0 * c2
  {
    SecondOrderShifts(Quadratic(c0, c1, c2), x, h);
    match scheme
    case Central => SecondCentralOnQuadratic(c0, c1, c2, x, h);
    case Forward => SecondCentralOnQuadratic(c0, c1, c2, x + h, h);
    case Backward => SecondCentralOnQuadratic(c0, c1, c2, x - h, h);
  }
}
