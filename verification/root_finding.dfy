/** Root finding (components/Exam2Solver.tsx, RootFinder.solve): bisection and false
    position on a sign-changing bracket, and Newton-Raphson with a supplied derivative,
    each capped at 15 rows. The user's expression is a total function f. */
module RootFinding {
  import opened Common

  /** At most this many rows, k = 0 .. 14. */
  const MaxIterations: nat := 15

  /** |denominator| below this stops false position; |f'| below this stops Newton. */
  const Tiny: real := 0.000000000001

  datatype BracketMethod = Bisection | FalsePosition

  /** One bracketing row: the bracket it started from, the new point and f there. */
  datatype BracketRow = BracketRow(k: nat, lower: real, upper: real, xm: real, fxm: real)

  /** One Newton row; change is |(x_{k+1} - x_k) / x_{k+1}|, undefined when x_{k+1} = 0. */
  datatype NewtonRow = NewtonRow(k: nat, x: real, fx: real, dfx: real, next: real, change: Option<real>)

  /** The summary under the table: the last row's k and point, and whether it converged. */
  datatype Summary<Row> = Summary(rows: seq<Row>, k: nat, value: real, converged: bool)

  function Min(a: real, b: real): real { if a < b then a else b }

  /** x lies strictly inside the interval spanned by a and b, in either order. */
  predicate StrictlyBetween(x: real, a: real, b: real) {
    Min(a, b) < x < Max(a, b)
  }

  predicate SignChange(f: real -> real, a: real, b: real) {
    f(a) * f(b) < 0.0
  }

  // ---------------------------------------------------------------- one bracketing step

  /** The next point: the midpoint, or the false-position chord's zero. */
  function NextPoint(how: BracketMethod, f: real -> real, lower: real, upper: real): (r: Result<real>)
    ensures r.Err? <==> how.FalsePosition? && Abs(f(upper) - f(lower)) < Tiny
    ensures r.Err? ==> r.error == DivisionByZero
    ensures r.Ok? && how.Bisection? ==> r.value == (lower + upper) / 2.0
    ensures r.Ok? && how.FalsePosition? ==> r.value * (f(upper) - f(lower)) == lower * f(upper) - upper * f(lower)
  {
    if how.Bisection? then Ok((lower + upper) / 2.0)
    else
      if Abs(f(upper) - f(lower)) < Tiny then Err(DivisionByZero)
      else Ok((lower * f(upper) - upper * f(lower)) / (f(upper) - f(lower)))
  }

  /** A product with a positive factor has the sign of the other factor. */
  lemma {:induction false} PositiveFactor(a: real, d: real)
    requires d > 0.0
    ensures a * d > 0.0 ==> a > 0.0
  {
  }

  /** The chord's zero for fl < 0 < fu: with d = fu - fl > 0,
      (x - l) d = (u - l)(-fl) and (u - x) d = (u - l) fu. */
  lemma {:induction false} ChordInside(l: real, u: real, fl: real, fu: real)
    requires fl < 0.0 < fu && l != u
    ensures StrictlyBetween((l * fu - u * fl) / (fu - fl), l, u)
  {
    var d := fu - fl;
    var x := (l * fu - u * fl) / d;
    assert x * d == l * fu - u * fl;
    var a := x - l;
    var b := u - x;
    assert a * d == x * d - l * d;
    assert a * d == (u - l) * -fl;
    assert b * d == (u - l) * fu;
    if l < u {
      assert (u - l) * -fl > 0.0;
      assert (u - l) * fu > 0.0;
      PositiveFactor(a, d);
      PositiveFactor(b, d);
    } else {
      assert (l - u) * -fl > 0.0;
      assert (l - u) * fu > 0.0;
      PositiveFactor(-a, d);
      PositiveFactor(-b, d);
    }
  }

  /** The chord's zero lies strictly between the ends when f changes sign. */
  lemma {:induction false} ChordBetween(l: real, u: real, fl: real, fu: real)
    requires fl * fu < 0.0
    ensures l != u ==> StrictlyBetween((l * fu - u * fl) / (fu - fl), l, u)
  {
    if l != u {
      if fu > 0.0 {
        assert fl < 0.0;
        ChordInside(l, u, fl, fu);
      } else {
        assert fl > 0.0 && fu < 0.0;
        ChordInside(l, u, -fl, -fu);
        var n, d := l * fu - u * fl, fu - fl;
        assert l * -fu - u * -fl == -n && -fu - -fl == -d;
        assert (-n) / (-d) == n / d;
      }
    }
  }

  /** Both bracketing methods put the new point strictly inside a sign-changing bracket. */
  lemma {:induction false} NextPointBetween(how: BracketMethod, f: real -> real, lower: real, upper: real)
    requires SignChange(f, lower, upper) && NextPoint(how, f, lower, upper).Ok?
    ensures StrictlyBetween(NextPoint(how, f, lower, upper).value, lower, upper)
  {
    assert lower != upper;
    var fl, fu := f(lower), f(upper);
    if how.FalsePosition? {
      var x := NextPoint(how, f, lower, upper).value;
      ChordBetween(lower, upper, fl, fu);
      assert fu - fl != 0.0 && lower * fu - upper * fl == (fu - fl) * x;
      DivideOut(fu - fl, x, lower * fu - upper * fl);
    }
  }

  /** The bracket update: the half where f(lower) * f(xm) < 0 holds the sign change. */
  function Shrink(f: real -> real, lower: real, upper: real, xm: real): (real, real) {
    if f(lower) * f(xm) < 0.0 then (lower, xm) else (xm, upper)
  }

  /** The update keeps a sign change as long as f(xm) != 0 (the tolerance test has
      already stopped the loop when |f(xm)| < tol, and tol > 0). */
  lemma {:induction false} ShrinkKeepsSignChange(f: real -> real, lower: real, upper: real, xm: real)
    requires SignChange(f, lower, upper) && f(xm) != 0.0
    ensures SignChange(f, Shrink(f, lower, upper, xm).0, Shrink(f, lower, upper, xm).1)
  {
    var fl, fu, fm := f(lower), f(upper), f(xm);
    if fl * fm >= 0.0 {
      assert fl != 0.0;
      assert fl * fm > 0.0;
      if fl > 0.0 {
        assert fm > 0.0 && fu < 0.0;
      } else {
        assert fm < 0.0 && fu > 0.0;
      }
    }
  }

  /** Bisection halves the bracket's width. */
  lemma {:induction false} BisectionHalves(f: real -> real, lower: real, upper: real)
    ensures var b := Shrink(f, lower, upper, (lower + upper) / 2.0);
      Abs(b.1 - b.0) == Abs(upper - lower) / 2.0
  {
  }

  // ---------------------------------------------------------------- the bracketing loop

  /** Row t + 1 starts from the bracket row t was shrunk to. */
  predicate BracketChained(f: real -> real, rows: seq<BracketRow>) {
    forall t :: 0 <= t < |rows| - 1 ==>
      (rows[t + 1].lower, rows[t + 1].upper) == Shrink(f, rows[t].lower, rows[t].upper, rows[t].xm)
  }

  /** Every row is a genuine step of the method from its own bracket. */
  predicate BracketRowsValid(how: BracketMethod, f: real -> real, rows: seq<BracketRow>) {
    forall t :: 0 <= t < |rows| ==>
      NextPoint(how, f, rows[t].lower, rows[t].upper) == Ok(rows[t].xm)
      && rows[t].fxm == f(rows[t].xm)
      && SignChange(f, rows[t].lower, rows[t].upper)
      && StrictlyBetween(rows[t].xm, rows[t].lower, rows[t].upper)
  }

  /** What the rows k.. of a bracketing run starting from (lower, upper) satisfy. */
  predicate BracketRun(how: BracketMethod, f: real -> real, lower: real, upper: real, tol: real, k: nat, rows: seq<BracketRow>) {
    |rows| <= MaxIterations - k
    && (k < MaxIterations ==> |rows| >= 1)
    && (|rows| >= 1 ==> rows[0].lower == lower && rows[0].upper == upper)
    && (forall t :: 0 <= t < |rows| ==> rows[t].k == k + t)
    && BracketRowsValid(how, f, rows)
    && BracketChained(f, rows)
    && (forall t :: 0 <= t < |rows| - 1 ==> Abs(rows[t].fxm) >= tol)
    && (|rows| >= 1 ==> Abs(rows[|rows| - 1].fxm) < tol || k + |rows| == MaxIterations)
  }

  /** A valid first row in front of a run from the shrunk bracket is a run. */
  lemma {:induction false} BracketCons(how: BracketMethod, f: real -> real, lower: real, upper: real, tol: real, k: nat,
                    row: BracketRow, rest: seq<BracketRow>)
    requires k < MaxIterations && row == BracketRow(k, lower, upper, row.xm, f(row.xm))
    requires BracketRowsValid(how, f, [row]) && Abs(row.fxm) >= tol
    requires var b := Shrink(f, lower, upper, row.xm); BracketRun(how, f, b.0, b.1, tol, k + 1, rest)
    ensures BracketRun(how, f, lower, upper, tol, k, [row] + rest)
  {
    var rows := [row] + rest;
    assert forall t :: 1 <= t < |rows| ==> rows[t] == rest[t - 1];
    assert BracketRowsValid(how, f, rows);
    assert BracketChained(f, rows);
  }

  /** The bracket the run from (lower, upper) has reached after j rows, provided every
      one of those rows produced a point without meeting the tolerance; None once an
      earlier row failed or stopped the loop. */
  function BracketAt(how: BracketMethod, f: real -> real, lower: real, upper: real, tol: real, j: nat)
    : Option<(real, real)>
    decreases j
  {
    if j == 0 then Some((lower, upper))
    else
      match NextPoint(how, f, lower, upper)
      case Err(_) => None
      case Ok(xm) =>
        if Abs(f(xm)) < tol then None
        else
          var b := Shrink(f, lower, upper, xm);
          BracketAt(how, f, b.0, b.1, tol, j - 1)
  }

  /** Some bracket among the first `count` ones reached has no next point. */
  predicate StuckWithin(how: BracketMethod, f: real -> real, lower: real, upper: real, tol: real, count: nat) {
    exists j :: 0 <= j < count && BracketAt(how, f, lower, upper, tol, j).Some?
      && NextPoint(how, f, BracketAt(how, f, lower, upper, tol, j).value.0,
                   BracketAt(how, f, lower, upper, tol, j).value.1).Err?
  }

  /** Being stuck within count + 1 brackets, past a first row that went on, is being
      stuck within count brackets of the shrunk one. */
  lemma {:induction false} StuckShift(how: BracketMethod, f: real -> real, lower: real, upper: real, tol: real,
                                      xm: real, count: nat)
    requires NextPoint(how, f, lower, upper) == Ok(xm) && Abs(f(xm)) >= tol
    ensures var b := Shrink(f, lower, upper, xm);
      StuckWithin(how, f, lower, upper, tol, count + 1) <==> StuckWithin(how, f, b.0, b.1, tol, count)
  {
    var b := Shrink(f, lower, upper, xm);
    forall j | 0 <= j
      ensures BracketAt(how, f, lower, upper, tol, j + 1) == BracketAt(how, f, b.0, b.1, tol, j)
    {
    }
    if StuckWithin(how, f, lower, upper, tol, count + 1) {
      var j :| 0 <= j < count + 1 && BracketAt(how, f, lower, upper, tol, j).Some?
        && NextPoint(how, f, BracketAt(how, f, lower, upper, tol, j).value.0,
                     BracketAt(how, f, lower, upper, tol, j).value.1).Err?;
      assert j != 0;
      assert BracketAt(how, f, lower, upper, tol, (j - 1) + 1) == BracketAt(how, f, b.0, b.1, tol, j - 1);
    }
    if StuckWithin(how, f, b.0, b.1, tol, count) {
      var j :| 0 <= j < count && BracketAt(how, f, b.0, b.1, tol, j).Some?
        && NextPoint(how, f, BracketAt(how, f, b.0, b.1, tol, j).value.0,
                     BracketAt(how, f, b.0, b.1, tol, j).value.1).Err?;
      assert BracketAt(how, f, lower, upper, tol, j + 1) == BracketAt(how, f, b.0, b.1, tol, j);
    }
  }

  /** A first row that meets the tolerance leaves no later bracket to be stuck at. */
  lemma {:induction false} StuckFirstOnly(how: BracketMethod, f: real -> real, lower: real, upper: real, tol: real,
                                          xm: real, count: nat)
    requires NextPoint(how, f, lower, upper) == Ok(xm) && Abs(f(xm)) < tol
    ensures !StuckWithin(how, f, lower, upper, tol, count)
  {
    forall j | 0 < j
      ensures BracketAt(how, f, lower, upper, tol, j).None?
    {
    }
  }

  /** Rows k.. of the bracketing loop from the bracket (lower, upper). */
  function Bracket(how: BracketMethod, f: real -> real, lower: real, upper: real, tol: real, k: nat)
    : (r: Result<seq<BracketRow>>)
    requires tol > 0.0 && SignChange(f, lower, upper) && k <= MaxIterations
    ensures r.Err? <==> StuckWithin(how, f, lower, upper, tol, MaxIterations - k)
    ensures r.Err? ==> how.FalsePosition? && r.error == DivisionByZero
    ensures how.Bisection? ==> r.Ok?
    ensures r.Ok? ==> BracketRun(how, f, lower, upper, tol, k, r.value)
    decreases MaxIterations - k
  {
    if k == MaxIterations then Ok([])
    else
      match NextPoint(how, f, lower, upper)
      case Err(e) =>
        assert BracketAt(how, f, lower, upper, tol, 0) == Some((lower, upper));
        Err(e)
      case Ok(xm) =>
        NextPointBetween(how, f, lower, upper);
        var row := BracketRow(k, lower, upper, xm, f(xm));
        assert BracketRowsValid(how, f, [row]);
        if Abs(f(xm)) < tol then
          StuckFirstOnly(how, f, lower, upper, tol, xm, MaxIterations - k);
          Ok([row])
        else
          var b := Shrink(f, lower, upper, xm);
          ShrinkKeepsSignChange(f, lower, upper, xm);
          StuckShift(how, f, lower, upper, tol, xm, MaxIterations - (k + 1));
          match Bracket(how, f, b.0, b.1, tol, k + 1)
          case Err(e) => Err(e)
          case Ok(rest) =>
            BracketCons(how, f, lower, upper, tol, k, row, rest);
            Ok([row] + rest)
  }

  /** Width of row t's bracket under bisection: the first width over 2^t. */
  function Pow2(t: nat): (p: real)
    ensures p >= 1.0
  {
    if t == 0 then 1.0 else 2.0 * Pow2(t - 1)
  }

  lemma {:induction false} BisectionWidths(f: real -> real, rows: seq<BracketRow>, t: nat)
    requires BracketRowsValid(Bisection, f, rows) && BracketChained(f, rows) && t < |rows|
    ensures Abs(rows[t].upper - rows[t].lower) == Abs(rows[0].upper - rows[0].lower) / Pow2(t)
  {
    if t > 0 {
      BisectionWidths(f, rows, t - 1);
      BisectionStep(f, rows, t);
      HalfOfQuotient(Abs(rows[0].upper - rows[0].lower), Pow2(t - 1));
    }
  }

  lemma {:induction false} BisectionStep(f: real -> real, rows: seq<BracketRow>, t: nat)
    requires BracketRowsValid(Bisection, f, rows) && BracketChained(f, rows) && 0 < t < |rows|
    ensures Abs(rows[t].upper - rows[t].lower) == Abs(rows[t - 1].upper - rows[t - 1].lower) / 2.0
  {
    var p := rows[t - 1];
    assert NextPoint(Bisection, f, p.lower, p.upper) == Ok(p.xm);
    assert (rows[t].lower, rows[t].upper) == Shrink(f, p.lower, p.upper, p.xm);
    BisectionHalves(f, p.lower, p.upper);
  }

  lemma {:induction false} HalfOfQuotient(w: real, p: real)
    requires p >= 1.0
    ensures (w / p) / 2.0 == w / (2.0 * p)
  {
  }

  /** The bisection/false-position branch of solve. Blank inputs are None; a blank
      function or tolerance is reported before anything else. */
  function SolveBracketing(how: BracketMethod, f: Option<real -> real>, xl: Option<real>, xu: Option<real>,
                           tolerance: Option<real>)
    : (r: Result<Summary<BracketRow>>)
    ensures f.None? || tolerance.None? ==> r == Err(MissingInput)
    ensures f.Some? && tolerance.Some? && tolerance.value <= 0.0 ==> r == Err(InvalidTolerance)
    ensures f.Some? && tolerance.Some? && tolerance.value > 0.0 && (xl.None? || xu.None?) ==> r == Err(MissingInput)
    ensures f.Some? && tolerance.Some? && tolerance.value > 0.0 && xl.Some? && xu.Some?
            && !SignChange(f.value, xl.value, xu.value)
      ==> r == Err(NoSignChange)
    ensures r.Ok?
        <==> f.Some? && tolerance.Some? && tolerance.value > 0.0 && xl.Some? && xu.Some?
             && SignChange(f.value, xl.value, xu.value)
             && !StuckWithin(how, f.value, xl.value, xu.value, tolerance.value, MaxIterations)
    ensures r.Err? && how.Bisection? ==> r.error != DivisionByZero
    ensures r.Ok? ==> var rows := r.value.rows;
      1 <= |rows| && BracketRun(how, f.value, xl.value, xu.value, tolerance.value, 0, rows)
      && r.value.k == rows[|rows| - 1].k && r.value.value == rows[|rows| - 1].xm
      && (r.value.converged <==> Abs(rows[|rows| - 1].fxm) < tolerance.value)
      && (!r.value.converged ==> |rows| == MaxIterations)
  {
    if f.None? || tolerance.None? then Err(MissingInput)
    else if tolerance.value <= 0.0 then Err(InvalidTolerance)
    else if xl.None? || xu.None? then Err(MissingInput)
    else if !SignChange(f.value, xl.value, xu.value) then Err(NoSignChange)
    else
      match Bracket(how, f.value, xl.value, xu.value, tolerance.value, 0)
      case Err(e) => Err(e)
      case Ok(rows) =>
        var last := rows[|rows| - 1];
        Ok(Summary(rows, last.k, last.xm, Abs(last.fxm) < tolerance.value))
  }

  // ---------------------------------------------------------------- Newton-Raphson

  /** |(next - x) / next|, or None where JavaScript would divide by zero. */
  function RelativeChange(x: real, next: real): (c: Option<real>)
    ensures c.None? <==> next == 0.0
    ensures c.Some? ==> c.value >= 0.0 && c.value * Abs(next) == Abs(next - x)
  {
    if next == 0.0 then None
    else
      AbsMul((next - x) / next, next);
      Some(Abs((next - x) / next))
  }

  predicate NewtonConverged(row: NewtonRow, tol: real) {
    row.change.Some? && row.change.value < tol
  }

  /** Every row is one tangent step from its own x, with a usable derivative. */
  predicate NewtonRowsValid(f: real -> real, df: real -> real, rows: seq<NewtonRow>) {
    forall t :: 0 <= t < |rows| ==>
      rows[t].fx == f(rows[t].x) && rows[t].dfx == df(rows[t].x)
      && Abs(rows[t].dfx) >= Tiny
      && rows[t].next == rows[t].x - rows[t].fx / rows[t].dfx
      && rows[t].change == RelativeChange(rows[t].x, rows[t].next)
  }

  /** The tangent step from x, when the derivative there is usable. */
  function NewtonRowAt(f: real -> real, df: real -> real, x: real, k: nat): NewtonRow
    requires Abs(df(x)) >= Tiny
  {
    var next := x - f(x) / df(x);
    NewtonRow(k, x, f(x), df(x), next, RelativeChange(x, next))
  }

  /** The point the Newton run from x has reached after j rows, provided none of those
      rows met a zero derivative or the tolerance; None otherwise. */
  function NewtonAt(f: real -> real, df: real -> real, x: real, tol: real, j: nat): Option<real>
    decreases j
  {
    if j == 0 then Some(x)
    else if Abs(df(x)) < Tiny then None
    else
      var row := NewtonRowAt(f, df, x, 0);
      if NewtonConverged(row, tol) then None else NewtonAt(f, df, row.next, tol, j - 1)
  }

  /** Some point among the first `count` ones reached has a derivative below Tiny. */
  predicate FlatWithin(f: real -> real, df: real -> real, x: real, tol: real, count: nat) {
    exists j :: 0 <= j < count && NewtonAt(f, df, x, tol, j).Some?
      && Abs(df(NewtonAt(f, df, x, tol, j).value)) < Tiny
  }

  lemma {:induction false} FlatShift(f: real -> real, df: real -> real, x: real, tol: real, count: nat)
    requires Abs(df(x)) >= Tiny && !NewtonConverged(NewtonRowAt(f, df, x, 0), tol)
    ensures FlatWithin(f, df, x, tol, count + 1) <==> FlatWithin(f, df, NewtonRowAt(f, df, x, 0).next, tol, count)
  {
    var next := NewtonRowAt(f, df, x, 0).next;
    if FlatWithin(f, df, x, tol, count + 1) {
      var j :| 0 <= j < count + 1 && NewtonAt(f, df, x, tol, j).Some? && Abs(df(NewtonAt(f, df, x, tol, j).value)) < Tiny;
      assert j != 0;
      assert NewtonAt(f, df, x, tol, (j - 1) + 1) == NewtonAt(f, df, next, tol, j - 1);
    }
    if FlatWithin(f, df, next, tol, count) {
      var j :| 0 <= j < count && NewtonAt(f, df, next, tol, j).Some? && Abs(df(NewtonAt(f, df, next, tol, j).value)) < Tiny;
      assert NewtonAt(f, df, x, tol, j + 1) == NewtonAt(f, df, next, tol, j);
    }
  }

  lemma {:induction false} FlatFirstOnly(f: real -> real, df: real -> real, x: real, tol: real, count: nat)
    requires Abs(df(x)) >= Tiny && NewtonConverged(NewtonRowAt(f, df, x, 0), tol)
    ensures !FlatWithin(f, df, x, tol, count)
  {
    forall j | 0 < j
      ensures NewtonAt(f, df, x, tol, j).None?
    {
    }
  }

  /** rows is a Newton run from x numbered from k: each row a tangent step from the previous
      row's next point, stopping at the first converged row or at the cap. */
  predicate NewtonRun(f: real -> real, df: real -> real, x: real, tol: real, k: nat, rows: seq<NewtonRow>) {
    |rows| <= MaxIterations - k
    && (k < MaxIterations ==> |rows| >= 1)
    && (|rows| >= 1 ==> rows[0].x == x)
    && (forall t :: 0 <= t < |rows| ==> rows[t].k == k + t)
    && NewtonRowsValid(f, df, rows)
    && (forall t :: 0 <= t < |rows| - 1 ==> rows[t + 1].x == rows[t].next && !NewtonConverged(rows[t], tol))
    && (|rows| >= 1 ==> NewtonConverged(rows[|rows| - 1], tol) || k + |rows| == MaxIterations)
  }

  /** An unconverged tangent step in front of a run from its next point is a run. */
  lemma {:induction false} NewtonCons(f: real -> real, df: real -> real, x: real, tol: real, k: nat,
                                      row: NewtonRow, rest: seq<NewtonRow>)
    requires k < MaxIterations && Abs(df(x)) >= Tiny && row == NewtonRowAt(f, df, x, k)
    requires !NewtonConverged(row, tol) && NewtonRun(f, df, row.next, tol, k + 1, rest)
    ensures NewtonRun(f, df, x, tol, k, [row] + rest)
  {
    var rows := [row] + rest;
    assert forall t :: 1 <= t < |rows| ==> rows[t] == rest[t - 1];
    assert NewtonRowsValid(f, df, rows);
  }

  /** Rows k.. of the Newton loop from the current x. */
  function NewtonFrom(f: real -> real, df: real -> real, x: real, tol: real, k: nat)
    : (r: Result<seq<NewtonRow>>)
    requires tol > 0.0 && k <= MaxIterations
    ensures r.Err? <==> FlatWithin(f, df, x, tol, MaxIterations - k)
    ensures r.Err? ==> r.error == ZeroDerivative
    ensures r.Ok? ==> NewtonRun(f, df, x, tol, k, r.value)
    decreases MaxIterations - k
  {
    if k == MaxIterations then Ok([])
    else if Abs(df(x)) < Tiny then
      assert NewtonAt(f, df, x, tol, 0) == Some(x);
      Err(ZeroDerivative)
    else
      var row := NewtonRowAt(f, df, x, k);
      assert row.next == NewtonRowAt(f, df, x, 0).next;
      if NewtonConverged(row, tol) then
        FlatFirstOnly(f, df, x, tol, MaxIterations - k);
        Ok([row])
      else
        FlatShift(f, df, x, tol, MaxIterations - (k + 1));
        match NewtonFrom(f, df, row.next, tol, k + 1)
        case Err(e) => Err(e)
        case Ok(rest) =>
          NewtonCons(f, df, x, tol, k, row, rest);
          Ok([row] + rest)
  }

  /** Each Newton point is the zero of the tangent line at the previous one. */
  lemma {:induction false} NewtonTangent(f: real -> real, df: real -> real, rows: seq<NewtonRow>, t: nat)
    requires NewtonRowsValid(f, df, rows) && t < |rows|
    ensures rows[t].fx + rows[t].dfx * (rows[t].next - rows[t].x) == 0.0
    ensures rows[t].fx == 0.0 <==> rows[t].next == rows[t].x
  {
    var r := rows[t];
    assert r.dfx != 0.0;
    assert r.dfx * (r.next - r.x) == -r.fx;
  }

  /** A converged row moved by less than tol relative to where it landed. */
  lemma {:induction false} NewtonConvergedClose(row: NewtonRow, tol: real)
    requires row.change == RelativeChange(row.x, row.next) && NewtonConverged(row, tol)
    ensures row.next != 0.0 && Abs(row.next - row.x) < tol * Abs(row.next)
  {
    var c := row.change.value;
    assert c * Abs(row.next) == Abs(row.next - row.x);
    assert Abs(row.next) > 0.0;
    assert c * Abs(row.next) < tol * Abs(row.next);
  }

  /** The Newton branch of solve. Blank inputs are None; a blank function or tolerance is
      reported before anything else. The derivative is supplied with the function. */
  function SolveNewton(f: Option<real -> real>, df: real -> real, x0: Option<real>, tolerance: Option<real>)
    : (r: Result<Summary<NewtonRow>>)
    ensures f.None? || tolerance.None? ==> r == Err(MissingInput)
    ensures f.Some? && tolerance.Some? && tolerance.value <= 0.0 ==> r == Err(InvalidTolerance)
    ensures f.Some? && tolerance.Some? && tolerance.value > 0.0 && x0.None? ==> r == Err(MissingInput)
    ensures f.Some? && tolerance.Some? && tolerance.value > 0.0 && x0.Some? && Abs(df(x0.value)) < Tiny
      ==> r == Err(ZeroDerivative)
    ensures r.Ok?
        <==> f.Some? && tolerance.Some? && tolerance.value > 0.0 && x0.Some?
             && !FlatWithin(f.value, df, x0.value, tolerance.value, MaxIterations)
    ensures f.Some? && tolerance.Some? && tolerance.value > 0.0 && x0.Some? && r.Err? ==> r.error == ZeroDerivative
    ensures r.Ok? ==> var rows := r.value.rows;
      1 <= |rows| <= MaxIterations
      && rows[0].x == x0.value
      && (forall t :: 0 <= t < |rows| ==> rows[t].k == t)
      && NewtonRowsValid(f.value, df, rows)
      && (forall t :: 0 <= t < |rows| - 1 ==> rows[t + 1].x == rows[t].next)
      && r.value.k == rows[|rows| - 1].k && r.value.value == rows[|rows| - 1].next
      && (r.value.converged <==> NewtonConverged(rows[|rows| - 1], tolerance.value))
      && (forall t :: 0 <= t < |rows| - 1 ==> !NewtonConverged(rows[t], tolerance.value))
      && (!r.value.converged ==> |rows| == MaxIterations)
  {
    if f.None? || tolerance.None? then Err(MissingInput)
    else if tolerance.value <= 0.0 then Err(InvalidTolerance)
    else if x0.None? then Err(MissingInput)
    else
      match NewtonFrom(f.value, df, x0.value, tolerance.value, 0)
      case Err(e) => Err(e)
      case Ok(rows) =>
        var last := rows[|rows| - 1];
        Ok(Summary(rows, last.k, last.next, NewtonConverged(last, tolerance.value)))
  }
}
