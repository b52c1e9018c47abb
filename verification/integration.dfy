/** Composite numerical integration of a user function over [a, b]: the trapezoidal rule,
    Simpson's 1/3 and 3/8 rules on n segments, and Romberg's table of trapezoid levels
    refined by Richardson extrapolation. */
module Integration {
  import opened Common

  datatype Rule = Trapezoidal | Simpson13 | Simpson38 | Romberg

  /** The result and, for Romberg, the table of extrapolations (row i has i + 1 entries). */
  datatype Integral = Integral(value: real, table: seq<seq<real>>)

  // ---------------------------------------------------------------- samples and partial sums

  /** x_i = a + i h. */
  function Node(a: real, h: real, i: nat): real {
    a + (i as real) * h
  }

  /** The ordinates f(x_i) for i = 0 .. n, as the code collects them before summing. */
  function Samples(f: real -> real, a: real, h: real, n: nat): (ys: seq<real>)
    ensures |ys| == n + 1
    ensures forall i :: 0 <= i <= n ==> ys[i] == f(Node(a, h, i))
  {
    seq(n + 1, i requires 0 <= i <= n => f(Node(a, h, i)))
  }

  /** Which interior samples a running sum of the code collects. */
  datatype Part = Every | Odd | Even | ThirdMultiple | NotThirdMultiple

  predicate InPart(i: nat, part: Part) {
    match part
    case Every => true
    case Odd => i % 2 != 0
    case Even => i % 2 == 0
    case ThirdMultiple => i % 3 == 0
    case NotThirdMultiple => i % 3 != 0
  }

  /** The sum of ys[i] over 1 <= i < k with i in the part, accumulated left to right. */
  function Interior(ys: seq<real>, k: nat, part: Part): real
    requires k <= |ys|
    decreases k
  {
    if k <= 1 then 0.0
    else Interior(ys, k - 1, part) + (if InPart(k - 1, part) then ys[k - 1] else 0.0)
  }

  /** The number of indices 1 <= i < k in the part. */
  function Count(k: nat, part: Part): real
    decreases k
  {
    if k <= 1 then 0.0 else Count(k - 1, part) + (if InPart(k - 1, part) then 1.0 else 0.0)
  }

  // ---------------------------------------------------------------- the composite rules

  function Step(a: real, b: real, n: nat): real
    requires n > 0
  {
    (b - a) / (n as real)
  }

  /** What each composite rule computes from the n + 1 samples ys at spacing h. */
  function RuleValue(rule: Rule, h: real, ys: seq<real>): real
    requires |ys| >= 2 && !rule.Romberg?
  {
    var n := |ys| - 1;
    match rule
    case Trapezoidal => (h / 2.0) * (ys[0] + 2.0 * Interior(ys, n, Every) + ys[n])
    case Simpson13 =>
      (h / 3.0) * (ys[0] + 4.0 * Interior(ys, n, Odd) + 2.0 * Interior(ys, n, Even) + ys[n])
    case Simpson38 =>
      (3.0 * h / 8.0) * (ys[0] + 2.0 * Interior(ys, n, ThirdMultiple)
                            + 3.0 * Interior(ys, n, NotThirdMultiple) + ys[n])
  }

  /** A composite rule on n segments of width h = (b - a) / n. */
  function Composite(rule: Rule, f: real -> real, a: real, b: real, n: nat): real
    requires n > 0 && !rule.Romberg?
  {
    var h := Step(a, b, n);
    RuleValue(rule, h, Samples(f, a, h, n))
  }

  // ---------------------------------------------------------------- the textbook weights

  /** The weight of sample i of n: 1 at both ends and, inside, 2 for the trapezoid,
      4 / 2 on odd / even indices for Simpson 1/3, 2 / 3 on / off multiples of 3 for 3/8. */
  function Weight(rule: Rule, i: nat, n: nat): real
    requires !rule.Romberg?
  {
    if i == 0 || i == n then 1.0
    else match rule
      case Trapezoidal => 2.0
      case Simpson13 => if i % 2 != 0 then 4.0 else 2.0
      case Simpson38 => if i % 3 == 0 then 2.0 else 3.0
  }

  /** h / 2, h / 3 and 3h / 8. */
  function Factor(rule: Rule, h: real): real
    requires !rule.Romberg?
  {
    match rule
    case Trapezoidal => h / 2.0
    case Simpson13 => h / 3.0
    case Simpson38 => 3.0 * h / 8.0
  }

  /** sum_{i < k} Weight(i) ys[i]. */
  function Weighted(rule: Rule, ys: seq<real>, k: nat): real
    requires !rule.Romberg? && k <= |ys|
    decreases k
  {
    if k == 0 then 0.0 else Weighted(rule, ys, k - 1) + Weight(rule, k - 1, |ys| - 1) * ys[k - 1]
  }

  /** The interior part of a rule's bracket, as the code sums it. */
  function Inside(rule: Rule, ys: seq<real>, k: nat): real
    requires !rule.Romberg? && k <= |ys|
  {
    match rule
    case Trapezoidal => 2.0 * Interior(ys, k, Every)
    case Simpson13 => 4.0 * Interior(ys, k, Odd) + 2.0 * Interior(ys, k, Even)
    case Simpson38 => 2.0 * Interior(ys, k, ThirdMultiple) + 3.0 * Interior(ys, k, NotThirdMultiple)
  }

  lemma {:induction false} WeightedPrefix(rule: Rule, ys: seq<real>, k: nat)
    requires !rule.Romberg? && 1 <= k < |ys|
    ensures Weighted(rule, ys, k) == ys[0] + Inside(rule, ys, k)
    decreases k
  {
    if k > 1 {
      WeightedPrefix(rule, ys, k - 1);
    }
  }

  /** Each rule is its factor h/2, h/3 or 3h/8 times the weighted sum of its samples. */
  lemma {:induction false} RuleIsWeighted(rule: Rule, h: real, ys: seq<real>)
    requires |ys| >= 2 && !rule.Romberg?
    ensures RuleValue(rule, h, ys) == Factor(rule, h) * Weighted(rule, ys, |ys|)
  {
    WeightedBracket(rule, ys);
    RuleIsBracket(rule, h, ys);
  }

  /** The bracket a rule multiplies by its factor: the end samples plus the weighted interior. */
  function Bracket(rule: Rule, ys: seq<real>): real
    requires |ys| >= 2 && !rule.Romberg?
  {
    ys[0] + Inside(rule, ys, |ys| - 1) + ys[|ys| - 1]
  }

  /** The weighted sum is the bracket the code multiplies by the factor. */
  lemma {:induction false} WeightedBracket(rule: Rule, ys: seq<real>)
    requires |ys| >= 2 && !rule.Romberg?
    ensures Weighted(rule, ys, |ys|) == Bracket(rule, ys)
  {
    WeightedPrefix(rule, ys, |ys| - 1);
  }

  lemma {:induction false} RuleIsBracket(rule: Rule, h: real, ys: seq<real>)
    requires |ys| >= 2 && !rule.Romberg?
    ensures RuleValue(rule, h, ys) == Factor(rule, h) * Bracket(rule, ys)
  {
    if rule == Trapezoidal {
      TrapezoidBracket(rule, h, ys);
    } else if rule == Simpson13 {
      Simpson13Bracket(rule, h, ys);
    } else {
      Simpson38Bracket(rule, h, ys);
    }
  }

  /** One rule at a time: the rule's value is its factor times its bracket. */
  lemma {:induction false} TrapezoidBracket(rule: Rule, h: real, ys: seq<real>)
    requires |ys| >= 2 && rule == Trapezoidal
    ensures RuleValue(rule, h, ys) == Factor(rule, h) * Bracket(rule, ys)
  {
    assert Factor(rule, h) == h / 2.0;
  }

  lemma {:induction false} Simpson13Bracket(rule: Rule, h: real, ys: seq<real>)
    requires |ys| >= 2 && rule == Simpson13
    ensures RuleValue(rule, h, ys) == Factor(rule, h) * Bracket(rule, ys)
  {
    assert Factor(rule, h) == h / 3.0;
  }

  lemma {:induction false} Simpson38Bracket(rule: Rule, h: real, ys: seq<real>)
    requires |ys| >= 2 && rule == Simpson38
    ensures RuleValue(rule, h, ys) == Factor(rule, h) * Bracket(rule, ys)
  {
    assert Factor(rule, h) == 3.0 * h / 8.0;
  }

  // ---------------------------------------------------------------- constants integrate exactly

  predicate AllEqual(ys: seq<real>, c: real) {
    forall i :: 0 <= i < |ys| ==> ys[i] == c
  }

  lemma {:induction false} InteriorOfConstant(ys: seq<real>, c: real, k: nat, part: Part)
    requires k <= |ys| && AllEqual(ys, c)
    ensures Interior(ys, k, part) == Times(c, Count(k, part))
    decreases k
  {
    if k > 1 {
      InteriorOfConstant(ys, c, k - 1, part);
      ScaleStep(c, Interior(ys, k - 1, part), Count(k - 1, part), Interior(ys, k, part), Count(k, part));
    } else {
      ScaleStep(c, 0.0, 0.0, Interior(ys, k, part), Count(k, part));
    }
  }

  /** A running sum of c's stays c times the running count, whether or not a term is added. */
  lemma {:induction false} ScaleStep(c: real, s0: real, n0: real, s1: real, n1: real)
    requires s0 == Times(c, n0)
    requires (s1 == s0 + c && n1 == n0 + 1.0) || (s1 == s0 && n1 == n0)
    ensures s1 == Times(c, n1)
  {
  }

  lemma {:induction false} CountEvery(k: nat)
    requires k >= 1
    ensures Count(k, Every) == (k - 1) as real
  {
    if k > 1 {
      CountEvery(k - 1);
    }
  }

  lemma {:induction false} CountHalves(m: nat)
    requires m >= 1
    ensures Count(2 * m, Odd) == m as real && Count(2 * m, Even) == (m - 1) as real
  {
    if m > 1 {
      CountHalves(m - 1);
      assert (2 * m - 1) % 2 != 0 && (2 * m - 2) % 2 == 0;
    }
  }

  lemma {:induction false} CountThirds(m: nat)
    requires m >= 1
    ensures Count(3 * m, ThirdMultiple) == (m - 1) as real && Count(3 * m, NotThirdMultiple) == (2 * m) as real
  {
    if m > 1 {
      CountThirds(m - 1);
      var k := 3 * m - 3;
      assert k % 3 == 0 && (k + 1) % 3 != 0 && (k + 2) % 3 != 0;
      assert Count(k + 1, ThirdMultiple) == Count(k, ThirdMultiple) + 1.0;
      assert Count(k + 2, ThirdMultiple) == Count(k + 1, ThirdMultiple);
      assert Count(k + 1, NotThirdMultiple) == Count(k, NotThirdMultiple);
      assert Count(k + 2, NotThirdMultiple) == Count(k + 1, NotThirdMultiple) + 1.0;
    } else {
      assert Count(2, NotThirdMultiple) == 1.0;
    }
  }

  /** With every sample equal to c, each rule gives c times h times the number of
      segments, provided the segment count suits the rule. */
  lemma {:induction false} RuleOfConstant(rule: Rule, h: real, ys: seq<real>, c: real)
    requires |ys| >= 2 && !rule.Romberg? && AllEqual(ys, c)
    requires rule.Simpson13? ==> (|ys| - 1) % 2 == 0
    requires rule.Simpson38? ==> (|ys| - 1) % 3 == 0
    ensures RuleValue(rule, h, ys) == c * (h * ((|ys| - 1) as real))
  {
    if rule == Trapezoidal {
      TrapezoidOfConstant(rule, h, ys, c);
    } else if rule == Simpson13 {
      Simpson13OfConstant(rule, h, ys, c);
    } else {
      Simpson38OfConstant(rule, h, ys, c);
    }
  }

  lemma {:induction false} TrapezoidOfConstant(rule: Rule, h: real, ys: seq<real>, c: real)
    requires rule == Trapezoidal && |ys| >= 2 && AllEqual(ys, c)
    ensures RuleValue(rule, h, ys) == c * (h * ((|ys| - 1) as real))
  {
    var n := |ys| - 1;
    InteriorOfConstant(ys, c, n, Every);
    CountEvery(n);
    assert RuleValue(rule, h, ys) == (h / 2.0) * (c + 2.0 * (c * ((n - 1) as real)) + c);
    TrapezoidAlgebra(h, c, n);
  }

  lemma {:induction false} Simpson13OfConstant(rule: Rule, h: real, ys: seq<real>, c: real)
    requires rule == Simpson13 && |ys| >= 2 && AllEqual(ys, c) && (|ys| - 1) % 2 == 0
    ensures RuleValue(rule, h, ys) == c * (h * ((|ys| - 1) as real))
  {
    var n := |ys| - 1;
    var m := n / 2;
    InteriorOfConstant(ys, c, n, Odd);
    InteriorOfConstant(ys, c, n, Even);
    CountHalves(m);
    assert RuleValue(rule, h, ys)
        == (h / 3.0) * (c + 4.0 * (c * (m as real)) + 2.0 * (c * ((m - 1) as real)) + c);
    Simpson13Algebra(h, c, m);
  }

  lemma {:induction false} Simpson38OfConstant(rule: Rule, h: real, ys: seq<real>, c: real)
    requires rule == Simpson38 && |ys| >= 2 && AllEqual(ys, c) && (|ys| - 1) % 3 == 0
    ensures RuleValue(rule, h, ys) == c * (h * ((|ys| - 1) as real))
  {
    var n := |ys| - 1;
    var m := n / 3;
    InteriorOfConstant(ys, c, n, ThirdMultiple);
    InteriorOfConstant(ys, c, n, NotThirdMultiple);
    CountThirds(m);
    assert RuleValue(rule, h, ys)
        == (3.0 * h / 8.0) * (c + 2.0 * (c * ((m - 1) as real)) + 3.0 * (c * ((2 * m) as real)) + c);
    Simpson38Algebra(h, c, m);
  }

  lemma {:induction false} TrapezoidAlgebra(h: real, c: real, n: nat)
    requires n >= 1
    ensures (h / 2.0) * (c + 2.0 * (c * ((n - 1) as real)) + c) == c * (h * (n as real))
  {
    assert c + 2.0 * (c * ((n - 1) as real)) + c == 2.0 * (c * (n as real));
  }

  lemma {:induction false} Simpson13Algebra(h: real, c: real, m: nat)
    requires m >= 1
    ensures (h / 3.0) * (c + 4.0 * (c * (m as real)) + 2.0 * (c * ((m - 1) as real)) + c)
         == c * (h * ((2 * m) as real))
  {
    assert c + 4.0 * (c * (m as real)) + 2.0 * (c * ((m - 1) as real)) + c == 6.0 * (c * (m as real));
  }

  lemma {:induction false} Simpson38Algebra(h: real, c: real, m: nat)
    requires m >= 1
    ensures (3.0 * h / 8.0) * (c + 2.0 * (c * ((m - 1) as real)) + 3.0 * (c * ((2 * m) as real)) + c)
         == c * (h * ((3 * m) as real))
  {
    assert c + 2.0 * (c * ((m - 1) as real)) + 3.0 * (c * ((2 * m) as real)) + c == 8.0 * (c * (m as real));
  }

  ghost predicate IsConstant(f: real -> real, c: real) {
    forall x :: f(x) == c
  }

  lemma {:induction false} StepTimesCount(a: real, b: real, n: nat)
    requires n > 0
    ensures Step(a, b, n) * (n as real) == b - a
  {
  }

  /** For f = c every rule whose segment count it accepts returns c (b - a). */
  lemma {:induction false} CompositeOfConstant(rule: Rule, f: real -> real, c: real, a: real, b: real, n: nat)
    requires n > 0 && !rule.Romberg? && IsConstant(f, c)
    requires rule.Simpson13? ==> n % 2 == 0
    requires rule.Simpson38? ==> n % 3 == 0
    ensures Composite(rule, f, a, b, n) == c * (b - a)
  {
    var h := Step(a, b, n);
    ConstantSamples(f, c, a, h, n);
    StepTimesCount(a, b, n);
    RuleOverSpan(rule, h, Samples(f, a, h, n), c, n, b - a);
  }

  lemma {:induction false} ConstantSamples(f: real -> real, c: real, a: real, h: real, n: nat)
    requires IsConstant(f, c)
    ensures AllEqual(Samples(f, a, h, n), c)
  {
  }

  /** RuleOfConstant restated for n segments whose span h n is the given width. */
  lemma {:induction false} RuleOverSpan(rule: Rule, h: real, ys: seq<real>, c: real, n: nat, width: real)
    requires |ys| == n + 1 && n > 0 && !rule.Romberg? && AllEqual(ys, c)
    requires rule.Simpson13? ==> n % 2 == 0
    requires rule.Simpson38? ==> n % 3 == 0
    requires h * (n as real) == width
    ensures RuleValue(rule, h, ys) == c * width
  {
    RuleOfConstant(rule, h, ys, c);
    SpanScale(RuleValue(rule, h, ys), c, h, (|ys| - 1) as real, n, width);
  }

  lemma {:induction false} SpanScale(v: real, c: real, h: real, k: real, n: nat, width: real)
    requires v == c * (h * k) && k == n as real && h * (n as real) == width
    ensures v == c * width
  {
  }

  // ---------------------------------------------------------------- halving the step

  lemma {:induction false} InteriorSplits(ys: seq<real>, k: nat)
    requires k <= |ys|
    ensures Interior(ys, k, Every) == Interior(ys, k, Odd) + Interior(ys, k, Even)
    decreases k
  {
    if k > 1 {
      InteriorSplits(ys, k - 1);
    }
  }

  /** The interior samples of the coarse grid are the even-indexed ones of the fine grid. */
  lemma {:induction false} CoarseInterior(ys: seq<real>, zs: seq<real>, k: nat)
    requires 1 <= k && 2 * k <= |ys| && k <= |zs|
    requires forall i :: 0 <= i < k ==> zs[i] == ys[2 * i]
    ensures Interior(zs, k, Every) == Interior(ys, 2 * k - 1, Even)
    decreases k
  {
    if k > 1 {
      CoarseInterior(ys, zs, k - 1);
      var e := 2 * k - 2;
      assert e % 2 == 0 && (e - 1) % 2 != 0;
      assert zs[k - 1] == ys[e];
      assert Interior(ys, e + 1, Even) == Interior(ys, e - 1, Even) + ys[e];
    }
  }

  lemma {:induction false} HalfStep(a: real, b: real, m: nat)
    requires m >= 1
    ensures Step(a, b, m) == 2.0 * Step(a, b, 2 * m)
  {
    var h := Step(a, b, 2 * m);
    assert ((2 * m) as real) == 2.0 * (m as real);
    assert h * (2.0 * (m as real)) == b - a;
    assert (2.0 * h) * (m as real) == b - a;
  }

  lemma {:induction false} NodeDoubles(a: real, h: real, i: nat)
    ensures Node(a, 2.0 * h, i) == Node(a, h, 2 * i)
  {
    assert ((2 * i) as real) == 2.0 * (i as real);
  }

  lemma {:induction false} RichardsonAlgebra(h: real, y0: real, odd: real, even: real, yn: real)
    ensures (h / 3.0) * (y0 + 4.0 * odd + 2.0 * even + yn)
         == (4.0 * ((h / 2.0) * (y0 + 2.0 * (odd + even) + yn)) - ((2.0 * h) / 2.0) * (y0 + 2.0 * even + yn)) / 3.0
  {
  }

  /** Simpson's 1/3 rule on 2m segments is one Richardson step on the trapezoid values for
      2m and m segments: S_2m = (4 T_2m - T_m) / 3. */
  lemma {:induction false} SimpsonIsRichardson(f: real -> real, a: real, b: real, m: nat)
    requires m >= 1
    ensures Composite(Simpson13, f, a, b, 2 * m)
         == (4.0 * Composite(Trapezoidal, f, a, b, 2 * m) - Composite(Trapezoidal, f, a, b, m)) / 3.0
  {
    var h := Step(a, b, 2 * m);
    HalfStep(a, b, m);
    var ys := Samples(f, a, h, 2 * m);
    var zs := Samples(f, a, 2.0 * h, m);
    forall i | 0 <= i <= m
      ensures zs[i] == ys[2 * i]
    {
      NodeDoubles(a, h, i);
    }
    SimpsonOfSamples(h, ys, zs, m);
  }

  /** The same identity on the samples themselves: zs is every other sample of ys. */
  lemma {:induction false} SimpsonOfSamples(h: real, ys: seq<real>, zs: seq<real>, m: nat)
    requires m >= 1 && |ys| == 2 * m + 1 && |zs| == m + 1
    requires forall i :: 0 <= i <= m ==> zs[i] == ys[2 * i]
    ensures RuleValue(Simpson13, h, ys)
         == (4.0 * RuleValue(Trapezoidal, h, ys) - RuleValue(Trapezoidal, 2.0 * h, zs)) / 3.0
  {
    var n := 2 * m;
    CoarseInterior(ys, zs, m);
    assert (n - 1) % 2 != 0;
    assert Interior(ys, n, Even) == Interior(ys, n - 1, Even);
    InteriorSplits(ys, n);
    assert zs[0] == ys[0] && zs[m] == ys[n];
    RichardsonAlgebra(h, ys[0], Interior(ys, n, Odd), Interior(ys, n, Even), ys[n]);
  }

  // ---------------------------------------------------------------- Romberg

  function Pow2(i: nat): (r: nat)
    ensures r >= 1
  {
    if i == 0 then 1 else 2 * Pow2(i - 1)
  }

  function Pow4(j: nat): (r: real)
    ensures r >= 1.0
    ensures j > 0 ==> r >= 4.0
  {
    if j == 0 then 1.0 else 4.0 * Pow4(j - 1)
  }

  /** Level i of the table: the trapezoid rule with 2^i segments, summing f(a + k h) for
      0 < k < 2^i and taking the ends as f(a) and f(b). */
  function Level(f: real -> real, a: real, b: real, i: nat): real {
    var segs := Pow2(i);
    var h := Step(a, b, segs);
    (h / 2.0) * (f(a) + 2.0 * Interior(Samples(f, a, h, segs), segs, Every) + f(b))
  }

  /** The first column R[0][0] .. R[n-1][0], computed before any extrapolation. */
  function Levels(f: real -> real, a: real, b: real, n: nat): (ls: seq<real>)
    ensures |ls| == n
  {
    seq(n, i requires 0 <= i < n => Level(f, a, b, i))
  }

  /** R[i][j] from the first column: R[i][j] = (4^j R[i][j-1] - R[i-1][j-1]) / (4^j - 1). */
  function Extrapolated(ls: seq<real>, i: nat, j: nat): real
    requires j <= i < |ls|
    decreases j
  {
    if j == 0 then ls[i]
    else Richardson(Pow4(j), Extrapolated(ls, i, j - 1), Extrapolated(ls, i - 1, j - 1))
  }

  /** One extrapolation: (p * fine - coarse) / (p - 1). */
  function Richardson(p: real, fine: real, coarse: real): real
    requires p > 1.0
  {
    (p * fine - coarse) / (p - 1.0)
  }

  /** Every level is the composite trapezoid rule on 2^i segments. */
  lemma {:induction false} LevelIsTrapezoid(f: real -> real, a: real, b: real, i: nat)
    ensures Level(f, a, b, i) == Composite(Trapezoidal, f, a, b, Pow2(i))
  {
    var segs := Pow2(i);
    var h := Step(a, b, segs);
    var ys := Samples(f, a, h, segs);
    StepTimesCount(a, b, segs);
    assert Node(a, h, 0) == a;
    assert Node(a, h, segs) == b;
  }

  /** The extrapolation step with the division cleared. */
  lemma {:induction false} RichardsonStep(ls: seq<real>, i: nat, j: nat)
    requires 1 <= j <= i < |ls|
    ensures Extrapolated(ls, i, j) * (Pow4(j) - 1.0) == Pow4(j) * Extrapolated(ls, i, j - 1) - Extrapolated(ls, i - 1, j - 1)
  {
    RichardsonCleared(Pow4(j), Extrapolated(ls, i, j - 1), Extrapolated(ls, i - 1, j - 1));
  }

  lemma {:induction false} RichardsonCleared(p: real, fine: real, coarse: real)
    requires p > 1.0
    ensures Richardson(p, fine, coarse) * (p - 1.0) == p * fine - coarse
  {
    MultiplyBack(p * fine - coarse, p - 1.0);
  }

  lemma {:induction false} MultiplyBack(w: real, d: real)
    requires d != 0.0
    ensures (w / d) * d == w
  {
  }

  /** The first extrapolated column is Simpson's 1/3 rule on 2^i segments. */
  lemma {:induction false} RombergSecondColumn(f: real -> real, a: real, b: real, n: nat, i: nat)
    requires 1 <= i < n
    ensures Extrapolated(Levels(f, a, b, n), i, 1) == Composite(Simpson13, f, a, b, Pow2(i))
  {
    var ls := Levels(f, a, b, n);
    LevelIsTrapezoid(f, a, b, i);
    LevelIsTrapezoid(f, a, b, i - 1);
    SimpsonIsRichardson(f, a, b, Pow2(i - 1));
    assert Pow4(1) == 4.0;
    assert Extrapolated(ls, i, 1) == Richardson(4.0, ls[i], ls[i - 1]);
  }

  /** Extrapolating between equal values keeps the value. */
  lemma {:induction false} ExtrapolatedOfEqual(ls: seq<real>, v: real, i: nat, j: nat)
    requires j <= i < |ls| && AllEqual(ls, v)
    ensures Extrapolated(ls, i, j) == v
    decreases j
  {
    if j > 0 {
      ExtrapolatedOfEqual(ls, v, i, j - 1);
      ExtrapolatedOfEqual(ls, v, i - 1, j - 1);
      RichardsonOfEqual(Pow4(j), v);
    }
  }

  lemma {:induction false} RichardsonOfEqual(p: real, v: real)
    requires p > 1.0
    ensures Richardson(p, v, v) == v
  {
    assert p * v - v == (p - 1.0) * v;
    DivideOut(p - 1.0, v, p * v - v);
  }

  /** For f = c every entry of the table is c (b - a). */
  lemma {:induction false} RombergOfConstant(f: real -> real, c: real, a: real, b: real, n: nat, i: nat, j: nat)
    requires j <= i < n && IsConstant(f, c)
    ensures Extrapolated(Levels(f, a, b, n), i, j) == c * (b - a)
  {
    var ls := Levels(f, a, b, n);
    forall k | 0 <= k < n
      ensures ls[k] == c * (b - a)
    {
      LevelIsTrapezoid(f, a, b, k);
      CompositeOfConstant(Trapezoidal, f, c, a, b, Pow2(k));
    }
    ExtrapolatedOfEqual(ls, c * (b - a), i, j);
  }

  /** The code's table R for n levels: row i holds R[i][0 .. i]. */
  function RombergTable(f: real -> real, a: real, b: real, n: nat): (t: seq<seq<real>>)
    ensures |t| == n && forall i :: 0 <= i < n ==> |t[i]| == i + 1
    ensures forall i, j :: 1 <= j <= i < n ==> Extrapolates(t, i, j)
  {
    var ls := Levels(f, a, b, n);
    var t := Triangle(ls);
    RecurrenceHolds(ls, t);
    t
  }

  /** The table's first column is the trapezoid rule on 1, 2, 4, ... segments, and its
      second is Simpson's 1/3 rule on 2, 4, 8, ... segments. */
  lemma {:induction false} RombergColumns(f: real -> real, a: real, b: real, n: nat)
    ensures forall i :: 0 <= i < n ==> RombergTable(f, a, b, n)[i][0] == Composite(Trapezoidal, f, a, b, Pow2(i))
    ensures forall i :: 1 <= i < n ==> RombergTable(f, a, b, n)[i][1] == Composite(Simpson13, f, a, b, Pow2(i))
  {
    var t := Triangle(Levels(f, a, b, n));
    assert RombergTable(f, a, b, n) == t;
    FirstColumn(f, a, b, n, t);
    SecondColumn(f, a, b, n, t);
  }

  /** R[i][j] for 0 <= j <= i < |ls|. */
  function Triangle(ls: seq<real>): (t: seq<seq<real>>)
    ensures |t| == |ls| && forall i :: 0 <= i < |ls| ==> |t[i]| == i + 1
    ensures forall i, j :: 0 <= j <= i < |ls| ==> t[i][j] == Extrapolated(ls, i, j)
  {
    seq(|ls|, i requires 0 <= i < |ls| => seq(i + 1, j requires 0 <= j <= i => Extrapolated(ls, i, j)))
  }

  lemma {:induction false} FirstColumn(f: real -> real, a: real, b: real, n: nat, t: seq<seq<real>>)
    requires t == Triangle(Levels(f, a, b, n))
    ensures forall i :: 0 <= i < n ==> t[i][0] == Composite(Trapezoidal, f, a, b, Pow2(i))
  {
    forall i | 0 <= i < n
      ensures t[i][0] == Composite(Trapezoidal, f, a, b, Pow2(i))
    {
      LevelIsTrapezoid(f, a, b, i);
    }
  }

  /** Entry R[i][j] is the Richardson step on R[i][j-1] and R[i-1][j-1], with the division
      cleared: R[i][j] (4^j - 1) = 4^j R[i][j-1] - R[i-1][j-1]. */
  predicate Extrapolates(t: seq<seq<real>>, i: nat, j: nat) {
    1 <= j <= i < |t| && j < |t[i]| && j - 1 < |t[i - 1]|
    && t[i][j] * (Pow4(j) - 1.0) == Pow4(j) * t[i][j - 1] - t[i - 1][j - 1]
  }

  lemma {:induction false} RecurrenceHolds(ls: seq<real>, t: seq<seq<real>>)
    requires t == Triangle(ls)
    ensures forall i, j :: 1 <= j <= i < |ls| ==> Extrapolates(t, i, j)
  {
    forall i, j | 1 <= j <= i < |ls|
      ensures Extrapolates(t, i, j)
    {
      ExtrapolatesAt(ls, t, i, j);
    }
  }

  lemma {:induction false} ExtrapolatesAt(ls: seq<real>, t: seq<seq<real>>, i: nat, j: nat)
    requires t == Triangle(ls) && 1 <= j <= i < |ls|
    ensures Extrapolates(t, i, j)
  {
    var p, fine, coarse := Pow4(j), Extrapolated(ls, i, j - 1), Extrapolated(ls, i - 1, j - 1);
    assert t[i][j] == Richardson(p, fine, coarse);
    assert t[i][j - 1] == fine && t[i - 1][j - 1] == coarse;
    RichardsonCleared(p, fine, coarse);
  }

  lemma {:induction false} SecondColumn(f: real -> real, a: real, b: real, n: nat, t: seq<seq<real>>)
    requires t == Triangle(Levels(f, a, b, n))
    ensures forall i :: 1 <= i < n ==> t[i][1] == Composite(Simpson13, f, a, b, Pow2(i))
  {
    forall i | 1 <= i < n
      ensures t[i][1] == Composite(Simpson13, f, a, b, Pow2(i))
    {
      RombergSecondColumn(f, a, b, n, i);
    }
  }

  // ---------------------------------------------------------------- the integrate button

  /** The integrate button: blank fields, a non-positive n, an odd n for Simpson 1/3 and an
      n not divisible by 3 for Simpson 3/8 are rejected in that order; Romberg reads n as
      the number of levels and answers R[n-1][n-1]. */
  function Integrate(rule: Rule, f: Option<real -> real>, a: Option<real>, b: Option<real>, n: Option<int>)
    : (r: Result<Integral>)
    ensures r == Err(MissingInput) <==> f.None? || a.None? || b.None? || n.None?
    ensures r == Err(NonPositiveSegments) <==> f.Some? && a.Some? && b.Some? && n.Some? && n.value <= 0
    ensures r == Err(OddSegmentCount)
        <==> f.Some? && a.Some? && b.Some? && n.Some? && n.value > 0 && rule.Simpson13? && n.value % 2 != 0
    ensures r == Err(SegmentsNotMultipleOfThree)
        <==> f.Some? && a.Some? && b.Some? && n.Some? && n.value > 0 && rule.Simpson38? && n.value % 3 != 0
    ensures r.Ok?
        <==> f.Some? && a.Some? && b.Some? && n.Some? && n.value > 0
             && !(rule.Simpson13? && n.value % 2 != 0) && !(rule.Simpson38? && n.value % 3 != 0)
    ensures r.Ok? && !rule.Romberg? ==>
      r.value.table == [] && r.value.value == Composite(rule, f.value, a.value, b.value, n.value)
    ensures r.Ok? && rule.Romberg? ==>
      r.value.table == RombergTable(f.value, a.value, b.value, n.value)
      && r.value.value == r.value.table[n.value - 1][n.value - 1]
  {
    if f.None? || a.None? || b.None? || n.None? then Err(MissingInput)
    else if n.value <= 0 then Err(NonPositiveSegments)
    else if rule.Simpson13? && n.value % 2 != 0 then Err(OddSegmentCount)
    else if rule.Simpson38? && n.value % 3 != 0 then Err(SegmentsNotMultipleOfThree)
    else if rule.Romberg? then
      var t := RombergTable(f.value, a.value, b.value, n.value);
      Ok(Integral(t[n.value - 1][n.value - 1], t))
    else Ok(Integral(Composite(rule, f.value, a.value, b.value, n.value), []))
  }

  /** Whatever rule is chosen, a constant integrand c gives c (b - a). */
  lemma {:induction false} IntegrateConstant(rule: Rule, f: real -> real, c: real, a: real, b: real, n: int)
    requires IsConstant(f, c)
    ensures Integrate(rule, Some(f), Some(a), Some(b), Some(n)).Ok?
        ==> Integrate(rule, Some(f), Some(a), Some(b), Some(n)).value.value == c * (b - a)
  {
    if Integrate(rule, Some(f), Some(a), Some(b), Some(n)).Ok? {
      if rule.Romberg? {
        RombergConstant(f, c, a, b, n);
      } else {
        CompositeOfConstant(rule, f, c, a, b, n);
      }
    }
  }

  lemma {:induction false} RombergConstant(f: real -> real, c: real, a: real, b: real, n: nat)
    requires IsConstant(f, c) && n > 0
    ensures Integrate(Romberg, Some(f), Some(a), Some(b), Some(n)).value.value == c * (b - a)
  {
    RombergAnswer(f, a, b, n);
    RombergOfConstant(f, c, a, b, n, n - 1, n - 1);
  }

  /** Romberg answers the last diagonal entry R[n-1][n-1]. */
  lemma {:induction false} RombergAnswer(f: real -> real, a: real, b: real, n: nat)
    requires n > 0
    ensures Integrate(Romberg, Some(f), Some(a), Some(b), Some(n)).Ok?
    ensures Integrate(Romberg, Some(f), Some(a), Some(b), Some(n)).value.value
         == Extrapolated(Levels(f, a, b, n), n - 1, n - 1)
  {
    var ls := Levels(f, a, b, n);
    assert RombergTable(f, a, b, n) == Triangle(ls);
    assert Triangle(ls)[n - 1][n - 1] == Extrapolated(ls, n - 1, n - 1);
  }
}
