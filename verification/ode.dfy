/** The classical fourth-order Runge-Kutta method for y' = f(x, y), and the same method on
    the system y' = z, z' = f(x, y, z) that a second-order equation y'' = f(x, y, y')
    reduces to. Both march from x0 in steps of h while x < x_end - 1e-9, at most 100 times,
    and record one row per step. */
module OdeSolvers {
  import opened Common

  /** The loop's safety cap, also the most steps the up-front estimate may ask for. */
  const MaxSteps: nat := 100

  /** The loop stops once x is within this distance of the target. */
  const Slack: real := 0.000000001

  /** The smallest integer not below r (Math.ceil). */
  function Ceil(r: real): (c: int)
    ensures r <= c as real < r + 1.0
  {
    var fl := r.Floor;
    if fl as real == r then fl else fl + 1
  }

  /** The while condition of both solvers. */
  predicate Continues(x: real, xEnd: real, i: nat) {
    x < xEnd - Slack && i < MaxSteps
  }

  /** x0 + t h, where step t starts. */
  function GridPoint(x0: real, h: real, t: nat): real {
    x0 + (t as real) * h
  }

  /** One step of h from the t-th grid point reaches the next one. */
  lemma {:induction false} GridNext(x0: real, h: real, t: nat, x: real, next: real)
    requires x == GridPoint(x0, h, t) && next == x + h
    ensures next == GridPoint(x0, h, t + 1)
  {
    assert (t + 1) as real == (t as real) + 1.0;
  }

  /** The checks both solvers make on parsed inputs, in the code's order. */
  function CheckRange(x0: real, h: real, xEnd: real): (r: Option<Failure>)
    ensures r == Some(NonPositiveStep) <==> h <= 0.0
    ensures r == Some(EmptyInterval) <==> h > 0.0 && xEnd <= x0
    ensures r == Some(StepSizeTooSmall) <==> h > 0.0 && xEnd > x0 && Ceil((xEnd - x0) / h) > MaxSteps
    ensures r.None? <==> h > 0.0 && xEnd > x0 && Ceil((xEnd - x0) / h) <= MaxSteps
  {
    if h <= 0.0 then Some(NonPositiveStep)
    else if xEnd <= x0 then Some(EmptyInterval)
    else if Ceil((xEnd - x0) / h) > MaxSteps then Some(StepSizeTooSmall)
    else None
  }

  /** A march that started at x0, took n steps of h, each from a point below x_end - Slack,
      and stopped, ends at or past x_end - Slack when the up-front estimate allowed it: the
      cap of 100 steps never cuts it short, and it took no more steps than the estimate. */
  lemma {:induction false} MarchReachesTarget(x0: real, h: real, xEnd: real, n: nat)
    requires h > 0.0 && xEnd > x0 && Ceil((xEnd - x0) / h) <= MaxSteps
    requires n <= MaxSteps && !Continues(GridPoint(x0, h, n), xEnd, n)
    requires forall t :: 0 <= t < n ==> GridPoint(x0, h, t) < xEnd - Slack
    ensures n <= Ceil((xEnd - x0) / h)
    ensures GridPoint(x0, h, n) >= xEnd - Slack
  {
    CeilCovers(x0, h, xEnd);
  }

  /** Ceil((x_end - x0) / h) steps of h reach x_end. */
  lemma {:induction false} CeilCovers(x0: real, h: real, xEnd: real)
    requires h > 0.0 && xEnd > x0
    ensures Ceil((xEnd - x0) / h) >= 0 && GridPoint(x0, h, Ceil((xEnd - x0) / h)) >= xEnd
  {
    var q := (xEnd - x0) / h;
    var c := Ceil(q);
    assert q * h == xEnd - x0;
    assert (c as real) >= q;
    MultiplyMonotone(q, c as real, h);
  }

  lemma {:induction false} MultiplyMonotone(a: real, b: real, h: real)
    requires a <= b && h > 0.0
    ensures a * h <= b * h
  {
  }

  // ---------------------------------------------------------------- first-order RK4

  /** One row of the iteration table. */
  datatype Rk4Row = Rk4Row(iter: nat, x: real, y: real, k1: real, k2: real, k3: real, k4: real,
                           slope: real, nextY: real, nextX: real)

  /** One RK4 step from (x, y) with step h, recorded as row number iter. */
  function Rk4Step(f: (real, real) -> real, iter: nat, x: real, y: real, h: real): Rk4Row {
    var k1 := f(x, y);
    var k2 := f(x + 0.5 * h, y + 0.5 * k1 * h);
    var k3 := f(x + 0.5 * h, y + 0.5 * k2 * h);
    var k4 := f(x + h, y + k3 * h);
    var slope := (k1 + 2.0 * k2 + 2.0 * k3 + k4) / 6.0;
    Rk4Row(iter, x, y, k1, k2, k3, k4, slope, y + slope * h, x + h)
  }

  /** The state (x, y) the loop holds after the rows: the start, or the last row's next. */
  function Rk4After(x0: real, y0: real, rows: seq<Rk4Row>): (real, real) {
    if |rows| == 0 then (x0, y0) else (rows[|rows| - 1].nextX, rows[|rows| - 1].nextY)
  }

  /** Each row is the RK4 step from its own (x, y), numbered by its position. */
  predicate Rk4RowsValid(f: (real, real) -> real, h: real, rows: seq<Rk4Row>) {
    forall t :: 0 <= t < |rows| ==> rows[t].iter == t && IsRk4Step(f, h, rows[t])
  }

  predicate IsRk4Step(f: (real, real) -> real, h: real, row: Rk4Row) {
    row == Rk4Step(f, row.iter, row.x, row.y, h)
  }

  lemma {:induction false} Rk4Advances(f: (real, real) -> real, h: real, row: Rk4Row)
    requires IsRk4Step(f, h, row)
    ensures row.nextX == row.x + h
  {
  }

  /** Each row after the first starts from its predecessor's (nextX, nextY). */
  predicate Rk4Chained(rows: seq<Rk4Row>) {
    forall t :: 0 < t < |rows| ==> rows[t].x == rows[t - 1].nextX && rows[t].y == rows[t - 1].nextY
  }

  /** Rows 0 .. |rows|-1 of the loop: valid steps, chained from (x0, y0), each taken from a
      point below the stopping bound. */
  predicate Rk4Prefix(f: (real, real) -> real, x0: real, y0: real, h: real, xEnd: real, rows: seq<Rk4Row>) {
    |rows| <= MaxSteps
    && (|rows| > 0 ==> rows[0].x == x0 && rows[0].y == y0)
    && Rk4RowsValid(f, h, rows)
    && (forall t :: 0 <= t < |rows| ==> rows[t].x < xEnd - Slack)
    && Rk4Chained(rows)
  }

  /** The complete table: a prefix after which the while condition fails. */
  predicate Rk4Trace(f: (real, real) -> real, x0: real, y0: real, h: real, xEnd: real, rows: seq<Rk4Row>) {
    Rk4Prefix(f, x0, y0, h, xEnd, rows) && !Continues(Rk4After(x0, y0, rows).0, xEnd, |rows|)
  }

  lemma {:induction false} Rk4Extend(f: (real, real) -> real, x0: real, y0: real, h: real, xEnd: real, rows: seq<Rk4Row>)
    requires Rk4Prefix(f, x0, y0, h, xEnd, rows)
    requires Continues(Rk4After(x0, y0, rows).0, xEnd, |rows|)
    ensures var s := Rk4After(x0, y0, rows);
            var row := Rk4Step(f, |rows|, s.0, s.1, h);
            Rk4Prefix(f, x0, y0, h, xEnd, rows + [row]) && Rk4After(x0, y0, rows + [row]) == (row.nextX, row.nextY)
  {
    var s := Rk4After(x0, y0, rows);
    var row := Rk4Step(f, |rows|, s.0, s.1, h);
    Rk4ValidAppend(f, h, rows, row);
    Rk4ChainedAppend(rows, row);
    var more := rows + [row];
    assert forall t :: 0 <= t < |rows| ==> more[t] == rows[t];
  }

  lemma {:induction false} Rk4ValidAppend(f: (real, real) -> real, h: real, rows: seq<Rk4Row>, row: Rk4Row)
    requires Rk4RowsValid(f, h, rows) && row.iter == |rows| && IsRk4Step(f, h, row)
    ensures Rk4RowsValid(f, h, rows + [row])
  {
    var more := rows + [row];
    assert forall t :: 0 <= t < |rows| ==> more[t] == rows[t];
  }

  lemma {:induction false} Rk4ChainedAppend(rows: seq<Rk4Row>, row: Rk4Row)
    requires Rk4Chained(rows)
    requires |rows| > 0 ==> row.x == rows[|rows| - 1].nextX && row.y == rows[|rows| - 1].nextY
    ensures Rk4Chained(rows + [row])
  {
    var more := rows + [row];
    assert forall t :: 0 <= t < |rows| ==> more[t] == rows[t];
  }

  /** The RK4 button: blank fields are rejected first, then h <= 0, then x_end <= x0, then
      an estimate of more than 100 steps; otherwise the table is the loop's complete run. */
  method Rk4Solve(f: Option<(real, real) -> real>, x0: Option<real>, y0: Option<real>,
                  h: Option<real>, xEnd: Option<real>) returns (r: Result<seq<Rk4Row>>)
    ensures r == Err(MissingInput) <==> f.None? || x0.None? || y0.None? || h.None? || xEnd.None?
    ensures r == Err(NonPositiveStep)
        <==> f.Some? && x0.Some? && y0.Some? && h.Some? && xEnd.Some? && h.value <= 0.0
    ensures r == Err(EmptyInterval)
        <==> f.Some? && x0.Some? && y0.Some? && h.Some? && xEnd.Some? && h.value > 0.0 && xEnd.value <= x0.value
    ensures r == Err(StepSizeTooSmall)
        <==> f.Some? && x0.Some? && y0.Some? && h.Some? && xEnd.Some? && h.value > 0.0 && xEnd.value > x0.value
             && Ceil((xEnd.value - x0.value) / h.value) > MaxSteps
    ensures r.Ok?
        <==> f.Some? && x0.Some? && y0.Some? && h.Some? && xEnd.Some?
             && h.value > 0.0 && xEnd.value > x0.value && Ceil((xEnd.value - x0.value) / h.value) <= MaxSteps
    ensures r.Ok? ==> Rk4Trace(f.value, x0.value, y0.value, h.value, xEnd.value, r.value)
  {
    if f.None? || x0.None? || y0.None? || h.None? || xEnd.None? {
      return Err(MissingInput);
    }
    var check := CheckRange(x0.value, h.value, xEnd.value);
    if check.Some? {
      return Err(check.value);
    }
    var g, step, target := f.value, h.value, xEnd.value;
    var rows: seq<Rk4Row> := [];
    var x, y := x0.value, y0.value;
    var i := 0;
    while x < target - Slack && i < MaxSteps
      invariant i == |rows|
      invariant Rk4Prefix(g, x0.value, y0.value, step, target, rows)
      invariant (x, y) == Rk4After(x0.value, y0.value, rows)
      decreases MaxSteps - i
    {
      Rk4Extend(g, x0.value, y0.value, step, target, rows);
      var row := Rk4Step(g, i, x, y, step);
      rows := rows + [row];
      x, y := row.nextX, row.nextY;
      i := i + 1;
    }
    return Ok(rows);
  }

  /** Two complete tables for the same inputs are the same table. */
  lemma {:induction false} Rk4TraceUnique(f: (real, real) -> real, x0: real, y0: real, h: real, xEnd: real,
                       rows: seq<Rk4Row>, other: seq<Rk4Row>)
    requires Rk4Trace(f, x0, y0, h, xEnd, rows) && Rk4Trace(f, x0, y0, h, xEnd, other)
    ensures rows == other
  {
    var n := if |rows| < |other| then |rows| else |other|;
    Rk4PrefixAgree(f, x0, y0, h, xEnd, rows, other, n);
    if |rows| < |other| {
      Rk4NextRow(f, x0, y0, h, xEnd, rows, other);
      assert false;
    } else if |other| < |rows| {
      Rk4NextRow(f, x0, y0, h, xEnd, other, rows);
      assert false;
    }
  }

  /** A longer table that agrees with a shorter one continues from where the shorter ended. */
  lemma {:induction false} Rk4NextRow(f: (real, real) -> real, x0: real, y0: real, h: real, xEnd: real,
                   rows: seq<Rk4Row>, longer: seq<Rk4Row>)
    requires Rk4Prefix(f, x0, y0, h, xEnd, longer) && |rows| < |longer| && rows == longer[..|rows|]
    ensures Continues(Rk4After(x0, y0, rows).0, xEnd, |rows|)
  {
    var n := |rows|;
    if n > 0 {
      assert longer[n].x == longer[n - 1].nextX;
    }
  }

  lemma {:induction false} Rk4PrefixAgree(f: (real, real) -> real, x0: real, y0: real, h: real, xEnd: real,
                                          rows: seq<Rk4Row>, other: seq<Rk4Row>, n: nat)
    requires Rk4Prefix(f, x0, y0, h, xEnd, rows) && Rk4Prefix(f, x0, y0, h, xEnd, other)
    requires n <= |rows| && n <= |other|
    ensures rows[..n] == other[..n]
  {
    if n > 0 {
      Rk4PrefixAgree(f, x0, y0, h, xEnd, rows, other, n - 1);
      if n > 1 {
        assert rows[n - 2] == other[n - 2];
      }
      assert rows[n - 1] == other[n - 1];
      assert rows[..n] == rows[..n - 1] + [rows[n - 1]];
      assert other[..n] == other[..n - 1] + [other[n - 1]];
    }
  }

  /** Row t starts at x0 + t h, and the loop ends at x0 + |rows| h. */
  lemma {:induction false} Rk4Grid(f: (real, real) -> real, x0: real, y0: real, h: real, xEnd: real,
                                   rows: seq<Rk4Row>)
    requires Rk4Prefix(f, x0, y0, h, xEnd, rows)
    ensures forall t :: 0 <= t < |rows| ==> rows[t].x == GridPoint(x0, h, t)
    ensures Rk4After(x0, y0, rows).0 == GridPoint(x0, h, |rows|)
  {
    if |rows| > 0 {
      var front := rows[..|rows| - 1];
      Rk4Front(f, x0, y0, h, xEnd, rows);
      Rk4Grid(f, x0, y0, h, xEnd, front);
      var t := |rows| - 1;
      assert rows[t].x == GridPoint(x0, h, t) by {
        if t > 0 {
          assert rows[t].x == front[t - 1].nextX;
        }
      }
      Rk4Advances(f, h, rows[t]);
      GridNext(x0, h, t, rows[t].x, rows[t].nextX);
    }
  }

  /** Dropping the last row leaves a prefix. */
  lemma {:induction false} Rk4Front(f: (real, real) -> real, x0: real, y0: real, h: real, xEnd: real, rows: seq<Rk4Row>)
    requires Rk4Prefix(f, x0, y0, h, xEnd, rows) && |rows| > 0
    ensures Rk4Prefix(f, x0, y0, h, xEnd, rows[..|rows| - 1])
  {
    var front := rows[..|rows| - 1];
    assert forall t :: 0 <= t < |front| ==> front[t] == rows[t];
    assert Rk4RowsValid(f, h, front);
    assert Rk4Chained(front);
  }

  /** When the estimate passes, the table ends at or past x_end - 1e-9 after at most
      ceil((x_end - x0) / h) rows. */
  lemma {:induction false} Rk4ReachesTarget(f: (real, real) -> real, x0: real, y0: real, h: real, xEnd: real, rows: seq<Rk4Row>)
    requires Rk4Trace(f, x0, y0, h, xEnd, rows)
    requires h > 0.0 && xEnd > x0 && Ceil((xEnd - x0) / h) <= MaxSteps
    ensures |rows| <= Ceil((xEnd - x0) / h)
    ensures Rk4After(x0, y0, rows).0 >= xEnd - Slack
  {
    Rk4Grid(f, x0, y0, h, xEnd, rows);
    MarchReachesTarget(x0, h, xEnd, |rows|);
  }

  // ---------------------------------------------------------------- what one RK4 step achieves

  /** f(x, y) = c0 + c1 x + c2 x^2, not depending on y. */
  function Quadratic(c0: real, c1: real, c2: real): (real, real) -> real {
    (x, y) => c0 + c1 * x + c2 * (x * x)
  }

  /** c0 x + c1 x^2 / 2 + c2 x^3 / 3, an antiderivative of that right-hand side. */
  function Antiderivative(c0: real, c1: real, c2: real, x: real): real {
    c0 * x + c1 * (x * x) / 2.0 + c2 * (x * x * x) / 3.0
  }

  /** For a right-hand side quadratic in x alone, one step advances y by exactly the
      integral of f over [x, x + h]. */
  lemma {:induction false} Rk4ExactStep(c0: real, c1: real, c2: real, iter: nat, x: real, y: real, h: real)
    ensures Rk4Step(Quadratic(c0, c1, c2), iter, x, y, h).nextY
         == y + (Antiderivative(c0, c1, c2, x + h) - Antiderivative(c0, c1, c2, x))
  {
    var g := Quadratic(c0, c1, c2);
    var row := Rk4Step(g, iter, x, y, h);
    var sum := g(x, y) + 4.0 * g(x + 0.5 * h, y) + g(x + h, y);
    assert row.k1 + 2.0 * row.k2 + 2.0 * row.k3 + row.k4 == sum;
    SimpsonOnQuadratic(c0, c1, c2, x, h);
    AntiderivativeStep(c0, c1, c2, x, h);
    var inc := c0 * h + c1 * (x * h + h * h / 2.0) + c2 * (x * x * h + x * h * h + h * h * h / 3.0);
    SixthOfSum(c0, c1, c2, x, h, sum, inc);
  }

  lemma {:induction false} SixthOfSum(c0: real, c1: real, c2: real, x: real, h: real, sum: real, inc: real)
    requires sum == 6.0 * c0 + c1 * (6.0 * x + 3.0 * h) + c2 * (6.0 * (x * x) + 6.0 * (x * h) + 2.0 * (h * h))
    requires inc == c0 * h + c1 * (x * h + h * h / 2.0) + c2 * (x * x * h + x * h * h + h * h * h / 3.0)
    ensures sum / 6.0 * h == inc
  {
    assert sum / 6.0 == c0 + c1 * (x + h / 2.0) + c2 * (x * x + x * h + h * h / 3.0);
  }

  /** f(x) + 4 f(x + h/2) + f(x + h) for the quadratic. */
  lemma {:induction false} SimpsonOnQuadratic(c0: real, c1: real, c2: real, x: real, h: real)
    ensures var g := Quadratic(c0, c1, c2);
      g(x, 0.0) + 4.0 * g(x + 0.5 * h, 0.0) + g(x + h, 0.0)
      == 6.0 * c0 + c1 * (6.0 * x + 3.0 * h) + c2 * (6.0 * (x * x) + 6.0 * (x * h) + 2.0 * (h * h))
  {
    var m := x + 0.5 * h;
    var e := x + h;
    assert m * m == x * x + x * h + 0.25 * (h * h);
    assert e * e == x * x + 2.0 * (x * h) + h * h;
    assert x * x + 4.0 * (m * m) + e * e == 6.0 * (x * x) + 6.0 * (x * h) + 2.0 * (h * h);
    assert c2 * (x * x) + 4.0 * (c2 * (m * m)) + c2 * (e * e) == c2 * (x * x + 4.0 * (m * m) + e * e);
  }

  lemma {:induction false} AntiderivativeStep(c0: real, c1: real, c2: real, x: real, h: real)
    ensures Antiderivative(c0, c1, c2, x + h) - Antiderivative(c0, c1, c2, x)
         == c0 * h + c1 * (x * h + h * h / 2.0) + c2 * (x * x * h + x * h * h + h * h * h / 3.0)
  {
    var e := x + h;
    assert e * e == x * x + 2.0 * (x * h) + h * h;
    assert e * e * e == x * x * x + 3.0 * (x * x * h) + 3.0 * (x * h * h) + h * h * h;
    assert c1 * (e * e) - c1 * (x * x) == c1 * (2.0 * (x * h) + h * h);
    assert c2 * (e * e * e) - c2 * (x * x * x) == c2 * (3.0 * (x * x * h) + 3.0 * (x * h * h) + h * h * h);
  }

  /** Down the whole table, y follows the exact solution y0 + F(x) - F(x0). */
  lemma {:induction false} Rk4ExactTrace(c0: real, c1: real, c2: real, x0: real, y0: real, h: real, xEnd: real,
                                         rows: seq<Rk4Row>)
    requires Rk4Prefix(Quadratic(c0, c1, c2), x0, y0, h, xEnd, rows)
    ensures forall t :: 0 <= t < |rows| ==>
      rows[t].nextY == y0 + (Antiderivative(c0, c1, c2, rows[t].nextX) - Antiderivative(c0, c1, c2, x0))
  {
    if |rows| > 0 {
      var front := rows[..|rows| - 1];
      Rk4Front(Quadratic(c0, c1, c2), x0, y0, h, xEnd, rows);
      Rk4ExactTrace(c0, c1, c2, x0, y0, h, xEnd, front);
      var t := |rows| - 1;
      Rk4ExactStep(c0, c1, c2, t, rows[t].x, rows[t].y, h);
      if t > 0 {
        assert rows[t].x == front[t - 1].nextX && rows[t].y == front[t - 1].nextY;
      }
    }
  }

  /** 1 + q + q^2/2 + q^3/6 + q^4/24, the exponential's Taylor polynomial of degree 4. */
  function Taylor4(q: real): real {
    1.0 + q + q * q / 2.0 + q * q * q / 6.0 + q * q * q * q / 24.0
  }

  /** On y' = lambda y one step multiplies y by the degree-4 Taylor polynomial of e^(lambda h). */
  lemma {:induction false} Rk4OnLinear(f: (real, real) -> real, lambda: real, iter: nat, x: real, y: real, h: real)
    requires forall s, w :: f(s, w) == lambda * w
    ensures Rk4Step(f, iter, x, y, h).nextY == y * Taylor4(lambda * h)
  {
    var k1 := f(x, y);
    var k2 := f(x + 0.5 * h, y + 0.5 * k1 * h);
    var k3 := f(x + 0.5 * h, y + 0.5 * k2 * h);
    var k4 := f(x + h, y + k3 * h);
    Rk4StepStages(f, iter, x, y, h);
    LinearStages(lambda, y, h, k1, k2, k3, k4);
  }

  /** The fields of a step in terms of the four applications of the field. */
  lemma {:induction false} Rk4StepStages(f: (real, real) -> real, iter: nat, x: real, y: real, h: real)
    ensures var row := Rk4Step(f, iter, x, y, h);
      var k1 := f(x, y); var k2 := f(x + 0.5 * h, y + 0.5 * k1 * h);
      var k3 := f(x + 0.5 * h, y + 0.5 * k2 * h); var k4 := f(x + h, y + k3 * h);
      row.nextY == y + (k1 + 2.0 * k2 + 2.0 * k3 + k4) / 6.0 * h
  {
  }

  /** The stage algebra of one RK4 step on y' = lambda y, over plain reals. */
  lemma {:induction false} LinearStages(lambda: real, y: real, h: real, k1: real, k2: real, k3: real, k4: real)
    requires k1 == lambda * y && k2 == lambda * (y + 0.5 * k1 * h)
    requires k3 == lambda * (y + 0.5 * k2 * h) && k4 == lambda * (y + k3 * h)
    ensures y + (k1 + 2.0 * k2 + 2.0 * k3 + k4) / 6.0 * h == y * Taylor4(lambda * h)
  {
    var q := lambda * h;
    var p2 := q + 0.5 * q * q;
    var p3 := q + 0.5 * q * p2;
    StageScale(lambda, h, q, y, 0.5, k1, q, k2);
    StageScale(lambda, h, q, y, 0.5, k2, p2, k3);
    StageScale(lambda, h, q, y, 1.0, k3, p3, k4);
    WeightedStages(y, h, k1, k2, k3, k4, q, p2, p3, q + q * p3);
  }

  /** A stage taken at y + c kp h, where kp h = y p, is y (q + c q p) after scaling by h. */
  lemma {:induction false} StageScale(lambda: real, h: real, q: real, y: real, c: real, kp: real, p: real, k: real)
    requires q == lambda * h && kp * h == y * p && k == lambda * (y + c * kp * h)
    ensures k * h == y * (q + c * q * p)
  {
  }

  /** The weighted mean of the scaled stages is the Taylor polynomial's tail. */
  lemma {:induction false} WeightedStages(y: real, h: real, k1: real, k2: real, k3: real, k4: real,
                                          q: real, p2: real, p3: real, p4: real)
    requires k1 * h == y * q && k2 * h == y * (q + 0.5 * q * q)
    requires k3 * h == y * (q + 0.5 * q * p2) && k4 * h == y * (q + 1.0 * q * p3)
    requires p2 == q + 0.5 * q * q && p3 == q + 0.5 * q * p2 && p4 == q + q * p3
    ensures y + (k1 + 2.0 * k2 + 2.0 * k3 + k4) / 6.0 * h == y * Taylor4(q)
  {
  }

  // ---------------------------------------------------------------- the second-order system

  /** The four stages of one component. */
  datatype Stages = Stages(k1: real, k2: real, k3: real, k4: real)

  /** (k1 + 2 k2 + 2 k3 + k4) / 6. */
  function Average(k: Stages): real {
    (k.k1 + 2.0 * k.k2 + 2.0 * k.k3 + k.k4) / 6.0
  }

  /** The stages of y and z for y' = f1(x, y, z), z' = f2(x, y, z): every stage evaluates
      both right-hand sides at the same intermediate state. */
  function SystemStages(f1: (real, real, real) -> real, f2: (real, real, real) -> real,
                        x: real, y: real, z: real, h: real): (Stages, Stages)
  {
    var k1y := f1(x, y, z);
    var k1z := f2(x, y, z);
    var k2y := f1(x + 0.5 * h, y + 0.5 * k1y * h, z + 0.5 * k1z * h);
    var k2z := f2(x + 0.5 * h, y + 0.5 * k1y * h, z + 0.5 * k1z * h);
    var k3y := f1(x + 0.5 * h, y + 0.5 * k2y * h, z + 0.5 * k2z * h);
    var k3z := f2(x + 0.5 * h, y + 0.5 * k2y * h, z + 0.5 * k2z * h);
    var k4y := f1(x + h, y + k3y * h, z + k3z * h);
    var k4z := f2(x + h, y + k3y * h, z + k3z * h);
    (Stages(k1y, k2y, k3y, k4y), Stages(k1z, k2z, k3z, k4z))
  }

  /** y' = z: the first equation of the reduced system. */
  function Velocity(): (real, real, real) -> real {
    (x: real, y: real, z: real) => z
  }

  /** One row of the system's table. */
  datatype SystemRow = SystemRow(iter: nat, x: real, y: real, z: real, nextY: real, nextZ: real, nextX: real)

  /** One step of the reduced system y' = z, z' = f(x, y, z). */
  function SystemStep(f: (real, real, real) -> real, iter: nat, x: real, y: real, z: real, h: real): (row: SystemRow)
    ensures row.iter == iter && row.x == x && row.y == y && row.z == z && row.nextX == x + h
  {
    var k := SystemStages(Velocity(), f, x, y, z, h);
    SystemRow(iter, x, y, z, y + Average(k.0) * h, z + Average(k.1) * h, x + h)
  }

  /** With y' = z each y-stage is the z of the state that stage is evaluated at. */
  lemma {:induction false} VelocityStages(f: (real, real, real) -> real, x: real, y: real, z: real, h: real)
    ensures var k := SystemStages(Velocity(), f, x, y, z, h);
      k.0 == Stages(z, z + 0.5 * k.1.k1 * h, z + 0.5 * k.1.k2 * h, z + k.1.k3 * h)
  {
  }

  /** Hence y advances by h z plus h^2 / 6 times the first three z-stages. */
  lemma {:induction false} SystemPositionUpdate(f: (real, real, real) -> real, iter: nat, x: real, y: real, z: real, h: real)
    ensures var kz := SystemStages(Velocity(), f, x, y, z, h).1;
      SystemStep(f, iter, x, y, z, h).nextY == y + h * z + h * h * (kz.k1 + kz.k2 + kz.k3) / 6.0
  {
    var kz := SystemStages(Velocity(), f, x, y, z, h).1;
    VelocityStages(f, x, y, z, h);
    var ky := SystemStages(Velocity(), f, x, y, z, h).0;
    assert Average(ky) == z + h * (kz.k1 + kz.k2 + kz.k3) / 6.0;
  }

  /** Under a constant acceleration y'' = g one step is exact: z gains g h and y gains
      z h + g h^2 / 2. */
  lemma {:induction false} ConstantAcceleration(g: real, iter: nat, x: real, y: real, z: real, h: real)
    ensures var row := SystemStep(ConstantField(g), iter, x, y, z, h);
      row.nextZ == z + g * h && row.nextY == y + z * h + g * (h * h) / 2.0
  {
    var f := ConstantField(g);
    SystemPositionUpdate(f, iter, x, y, z, h);
    var kz := SystemStages(Velocity(), f, x, y, z, h).1;
    assert kz == Stages(g, g, g, g);
  }

  /** y'' = g. */
  function ConstantField(g: real): (real, real, real) -> real {
    (x: real, y: real, z: real) => g
  }

  /** f(x, y, z) = a(x): the acceleration depends on x alone. */
  ghost predicate DependsOnXOnly(f: (real, real, real) -> real, a: real -> real) {
    forall x, y, z :: f(x, y, z) == a(x)
  }

  /** When the acceleration depends on x alone, z advances exactly as the first-order RK4
      step for z' = a(x) does. */
  lemma {:induction false} SystemDecouples(f: (real, real, real) -> real, a: real -> real, iter: nat, x: real, y: real, z: real, h: real)
    requires DependsOnXOnly(f, a)
    ensures SystemStep(f, iter, x, y, z, h).nextZ == Rk4Step((s: real, w: real) => a(s), iter, x, z, h).nextY
  {
    var kz := SystemStages(Velocity(), f, x, y, z, h).1;
    assert kz == Stages(a(x), a(x + 0.5 * h), a(x + 0.5 * h), a(x + h));
  }

  /** The state (x, y, z) the loop holds after the rows. */
  function SystemAfter(x0: real, y0: real, z0: real, rows: seq<SystemRow>): (real, real, real) {
    if |rows| == 0 then (x0, y0, z0)
    else (rows[|rows| - 1].nextX, rows[|rows| - 1].nextY, rows[|rows| - 1].nextZ)
  }

  predicate IsSystemStep(f: (real, real, real) -> real, h: real, row: SystemRow) {
    row == SystemStep(f, row.iter, row.x, row.y, row.z, h)
  }

  lemma {:induction false} SystemAdvances(f: (real, real, real) -> real, h: real, row: SystemRow)
    requires IsSystemStep(f, h, row)
    ensures row.nextX == row.x + h
  {
  }

  predicate SystemRowsValid(f: (real, real, real) -> real, h: real, rows: seq<SystemRow>) {
    forall t :: 0 <= t < |rows| ==> rows[t].iter == t && IsSystemStep(f, h, rows[t])
  }

  predicate SystemChained(rows: seq<SystemRow>) {
    forall t :: 0 < t < |rows| ==>
      rows[t].x == rows[t - 1].nextX && rows[t].y == rows[t - 1].nextY && rows[t].z == rows[t - 1].nextZ
  }

  /** Rows 0 .. |rows|-1 of the system's loop, as for the first-order table. */
  predicate SystemPrefix(f: (real, real, real) -> real, x0: real, y0: real, z0: real, h: real, xEnd: real,
                         rows: seq<SystemRow>) {
    |rows| <= MaxSteps
    && (|rows| > 0 ==> rows[0].x == x0 && rows[0].y == y0 && rows[0].z == z0)
    && SystemRowsValid(f, h, rows)
    && (forall t :: 0 <= t < |rows| ==> rows[t].x < xEnd - Slack)
    && SystemChained(rows)
  }

  predicate SystemTrace(f: (real, real, real) -> real, x0: real, y0: real, z0: real, h: real, xEnd: real,
                        rows: seq<SystemRow>) {
    SystemPrefix(f, x0, y0, z0, h, xEnd, rows) && !Continues(SystemAfter(x0, y0, z0, rows).0, xEnd, |rows|)
  }

  lemma {:induction false} SystemExtend(f: (real, real, real) -> real, x0: real, y0: real, z0: real, h: real, xEnd: real,
                     rows: seq<SystemRow>)
    requires SystemPrefix(f, x0, y0, z0, h, xEnd, rows)
    requires Continues(SystemAfter(x0, y0, z0, rows).0, xEnd, |rows|)
    ensures var s := SystemAfter(x0, y0, z0, rows);
            var row := SystemStep(f, |rows|, s.0, s.1, s.2, h);
            SystemPrefix(f, x0, y0, z0, h, xEnd, rows + [row])
            && SystemAfter(x0, y0, z0, rows + [row]) == (row.nextX, row.nextY, row.nextZ)
  {
    var s := SystemAfter(x0, y0, z0, rows);
    var row := SystemStep(f, |rows|, s.0, s.1, s.2, h);
    assert IsSystemStep(f, h, row);
    SystemValidExtend(f, h, rows, row);
    SystemChainExtend(x0, y0, z0, rows, row);
  }

  lemma {:induction false} SystemValidExtend(f: (real, real, real) -> real, h: real, rows: seq<SystemRow>, row: SystemRow)
    requires SystemRowsValid(f, h, rows) && row.iter == |rows| && IsSystemStep(f, h, row)
    ensures SystemRowsValid(f, h, rows + [row])
  {
    var more := rows + [row];
    assert forall t :: 0 <= t < |rows| ==> more[t] == rows[t];
  }

  lemma {:induction false} SystemChainExtend(x0: real, y0: real, z0: real, rows: seq<SystemRow>, row: SystemRow)
    requires SystemChained(rows) && (row.x, row.y, row.z) == SystemAfter(x0, y0, z0, rows)
    ensures SystemChained(rows + [row])
    ensures SystemAfter(x0, y0, z0, rows + [row]) == (row.nextX, row.nextY, row.nextZ)
  {
    var more := rows + [row];
    assert forall t :: 0 <= t < |rows| ==> more[t] == rows[t];
  }

  /** The higher-order button: the same checks as the first-order one, with the extra
      initial value z0 = y'(x0), then the loop's complete run. */
  method SystemSolve(f: Option<(real, real, real) -> real>, x0: Option<real>, y0: Option<real>, z0: Option<real>,
                     h: Option<real>, xEnd: Option<real>) returns (r: Result<seq<SystemRow>>)
    ensures r == Err(MissingInput)
        <==> f.None? || x0.None? || y0.None? || z0.None? || h.None? || xEnd.None?
    ensures r == Err(NonPositiveStep)
        <==> f.Some? && x0.Some? && y0.Some? && z0.Some? && h.Some? && xEnd.Some? && h.value <= 0.0
    ensures r == Err(EmptyInterval)
        <==> f.Some? && x0.Some? && y0.Some? && z0.Some? && h.Some? && xEnd.Some?
             && h.value > 0.0 && xEnd.value <= x0.value
    ensures r == Err(StepSizeTooSmall)
        <==> f.Some? && x0.Some? && y0.Some? && z0.Some? && h.Some? && xEnd.Some?
             && h.value > 0.0 && xEnd.value > x0.value && Ceil((xEnd.value - x0.value) / h.value) > MaxSteps
    ensures r.Ok?
        <==> f.Some? && x0.Some? && y0.Some? && z0.Some? && h.Some? && xEnd.Some?
             && h.value > 0.0 && xEnd.value > x0.value && Ceil((xEnd.value - x0.value) / h.value) <= MaxSteps
    ensures r.Ok? ==> SystemTrace(f.value, x0.value, y0.value, z0.value, h.value, xEnd.value, r.value)
  {
    if f.None? || x0.None? || y0.None? || z0.None? || h.None? || xEnd.None? {
      return Err(MissingInput);
    }
    var check := CheckRange(x0.value, h.value, xEnd.value);
    if check.Some? {
      return Err(check.value);
    }
    var g, step, target := f.value, h.value, xEnd.value;
    var rows: seq<SystemRow> := [];
    var x, y, z := x0.value, y0.value, z0.value;
    var i := 0;
    while x < target - Slack && i < MaxSteps
      invariant i == |rows|
      invariant SystemPrefix(g, x0.value, y0.value, z0.value, step, target, rows)
      invariant (x, y, z) == SystemAfter(x0.value, y0.value, z0.value, rows)
      decreases MaxSteps - i
    {
      SystemExtend(g, x0.value, y0.value, z0.value, step, target, rows);
      var row := SystemStep(g, i, x, y, z, step);
      rows := rows + [row];
      x, y, z := row.nextX, row.nextY, row.nextZ;
      i := i + 1;
    }
    return Ok(rows);
  }

  /** Row t starts at x0 + t h, and the loop ends at x0 + |rows| h. */
  lemma {:induction false} SystemGrid(f: (real, real, real) -> real, x0: real, y0: real, z0: real, h: real,
                                      xEnd: real, rows: seq<SystemRow>)
    requires SystemPrefix(f, x0, y0, z0, h, xEnd, rows)
    ensures forall t :: 0 <= t < |rows| ==> rows[t].x == GridPoint(x0, h, t)
    ensures SystemAfter(x0, y0, z0, rows).0 == GridPoint(x0, h, |rows|)
  {
    if |rows| > 0 {
      var front := rows[..|rows| - 1];
      SystemFront(f, x0, y0, z0, h, xEnd, rows);
      SystemGrid(f, x0, y0, z0, h, xEnd, front);
      var t := |rows| - 1;
      assert rows[t].x == GridPoint(x0, h, t) by {
        if t > 0 {
          assert rows[t].x == front[t - 1].nextX;
        }
      }
      SystemAdvances(f, h, rows[t]);
      GridNext(x0, h, t, rows[t].x, rows[t].nextX);
    }
  }

  lemma {:induction false} SystemFront(f: (real, real, real) -> real, x0: real, y0: real, z0: real, h: real, xEnd: real,
                    rows: seq<SystemRow>)
    requires SystemPrefix(f, x0, y0, z0, h, xEnd, rows) && |rows| > 0
    ensures SystemPrefix(f, x0, y0, z0, h, xEnd, rows[..|rows| - 1])
  {
    var front := rows[..|rows| - 1];
    assert forall t :: 0 <= t < |front| ==> front[t] == rows[t];
    assert SystemRowsValid(f, h, front);
    assert SystemChained(front);
  }

  /** When the estimate passes, the system's table also ends at or past x_end - 1e-9 after
      at most ceil((x_end - x0) / h) rows. */
  lemma {:induction false} SystemReachesTarget(f: (real, real, real) -> real, x0: real, y0: real, z0: real, h: real, xEnd: real,
                            rows: seq<SystemRow>)
    requires SystemTrace(f, x0, y0, z0, h, xEnd, rows)
    requires h > 0.0 && xEnd > x0 && Ceil((xEnd - x0) / h) <= MaxSteps
    ensures |rows| <= Ceil((xEnd - x0) / h)
    ensures SystemAfter(x0, y0, z0, rows).0 >= xEnd - Slack
  {
    SystemGrid(f, x0, y0, z0, h, xEnd, rows);
    MarchReachesTarget(x0, h, xEnd, |rows|);
  }

  /** The exact motion under constant acceleration g from (x0, y0, z0):
      y = y0 + z0 (x - x0) + g (x - x0)^2 / 2 and z = z0 + g (x - x0). */
  predicate OnMotion(g: real, x0: real, y0: real, z0: real, x: real, y: real, z: real) {
    var d := x - x0;
    y == y0 + z0 * d + g * (d * d) / 2.0 && z == z0 + g * d
  }

  /** Under a constant acceleration g the whole table follows the exact motion. */
  lemma {:induction false} SystemExactTrace(g: real, x0: real, y0: real, z0: real, h: real, xEnd: real,
                                            rows: seq<SystemRow>)
    requires SystemPrefix(ConstantField(g), x0, y0, z0, h, xEnd, rows)
    ensures forall t :: 0 <= t < |rows| ==> OnMotion(g, x0, y0, z0, rows[t].nextX, rows[t].nextY, rows[t].nextZ)
  {
    if |rows| > 0 {
      var front := rows[..|rows| - 1];
      SystemFront(ConstantField(g), x0, y0, z0, h, xEnd, rows);
      SystemExactTrace(g, x0, y0, z0, h, xEnd, front);
      var t := |rows| - 1;
      var row := rows[t];
      assert OnMotion(g, x0, y0, z0, row.x, row.y, row.z) by {
        if t > 0 {
          assert row.x == front[t - 1].nextX && row.y == front[t - 1].nextY && row.z == front[t - 1].nextZ;
        }
      }
      assert IsSystemStep(ConstantField(g), h, row);
      SystemExactRow(g, x0, y0, z0, h, row);
      assert forall u :: 0 <= u < t ==> rows[u] == front[u];
    }
  }

  lemma {:induction false} SystemExactRow(g: real, x0: real, y0: real, z0: real, h: real, row: SystemRow)
    requires IsSystemStep(ConstantField(g), h, row) && OnMotion(g, x0, y0, z0, row.x, row.y, row.z)
    ensures OnMotion(g, x0, y0, z0, row.nextX, row.nextY, row.nextZ)
  {
    ConstantAcceleration(g, row.iter, row.x, row.y, row.z, h);
    MotionStep(g, x0, y0, z0, row.x, row.y, row.z, h);
  }

  /** One exact step of h keeps a state on the motion. */
  lemma {:induction false} MotionStep(g: real, x0: real, y0: real, z0: real, x: real, y: real, z: real, h: real)
    requires OnMotion(g, x0, y0, z0, x, y, z)
    ensures OnMotion(g, x0, y0, z0, x + h, y + z * h + g * (h * h) / 2.0, z + g * h)
  {
    var d := x - x0;
    assert (x + h) - x0 == d + h;
    assert (d + h) * (d + h) == d * d + 2.0 * (d * h) + h * h;
    assert (z0 + g * d) * h == z0 * h + g * (d * h);
    assert g * ((d + h) * (d + h)) == g * (d * d) + 2.0 * (g * (d * h)) + g * (h * h);
  }
}
