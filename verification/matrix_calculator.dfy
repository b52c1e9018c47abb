/** The matrix calculator (components/MatrixCalculator.tsx): the size clamp of the
    dimension inputs, element-wise addition and subtraction, the triple-loop product,
    and the recursive first-row cofactor expansion with its step log. */
module MatrixCalculator {
  import opened Common

  // ---------------------------------------------------------------- shapes

  /** What the calculator works on: at least one row and one column, all rows alike. */
  predicate Grid(m: Matrix) {
    |m| >= 1 && |m[0]| >= 1 && forall i :: 0 <= i < |m| ==> |m[i]| == |m[0]|
  }

  function Rows(m: Matrix): nat { |m| }

  function Cols(m: Matrix): nat
    requires Grid(m)
  {
    |m[0]|
  }

  predicate Square(m: Matrix) {
    forall i :: 0 <= i < |m| ==> |m[i]| == |m|
  }

  /** Math.min(Math.max(parseInt(v) || 2, 1), 10): an unparsable entry (None) or 0
      becomes 2, anything else is clamped into 1..10. */
  function ClampSize(v: Option<int>): (r: nat)
    ensures 1 <= r <= 10
    ensures v.Some? && v.value != 0 && 1 <= v.value <= 10 ==> r == v.value
    ensures (v.None? || v.value == 0) ==> r == 2
    ensures v.Some? && v.value < 0 ==> r == 1
    ensures v.Some? && v.value > 10 ==> r == 10
  {
    var raw := if v.None? || v.value == 0 then 2 else v.value;
    if raw < 1 then 1 else if raw > 10 then 10 else raw
  }

  /** Typing a clamped size back in leaves it unchanged. */
  lemma {:induction false} ClampSizeIdempotent(v: Option<int>)
    ensures ClampSize(Some(ClampSize(v))) == ClampSize(v)
  {
  }

  // ---------------------------------------------------------------- add / subtract

  /** a[i][j] + sign * b[i][j] over the shape of a. */
  function Combine(a: Matrix, b: Matrix, sign: real): (r: Matrix)
    requires Grid(a) && Grid(b) && Rows(a) == Rows(b) && Cols(a) == Cols(b)
    ensures Grid(r) && Rows(r) == Rows(a) && Cols(r) == Cols(a)
  {
    seq(|a|, i requires 0 <= i < |a| =>
      seq(|a[0]|, j requires 0 <= j < |a[0]| => a[i][j] + sign * b[i][j]))
  }

  /** Addition: refused unless both row and column counts agree. */
  function Add(a: Matrix, b: Matrix): (r: Result<Matrix>)
    requires Grid(a) && Grid(b)
    ensures r.Err? <==> Rows(a) != Rows(b) || Cols(a) != Cols(b)
    ensures r.Err? ==> r.error == DimensionMismatch
    ensures r.Ok? ==> Grid(r.value) && Rows(r.value) == Rows(a) && Cols(r.value) == Cols(a)
    ensures r.Ok? ==> forall i, j :: 0 <= i < Rows(a) && 0 <= j < Cols(a) ==>
      r.value[i][j] == a[i][j] + b[i][j]
  {
    if Rows(a) != Rows(b) || Cols(a) != Cols(b) then Err(DimensionMismatch)
    else Ok(Combine(a, b, 1.0))
  }

  /** Subtraction: the same dimension rule as addition. */
  function Subtract(a: Matrix, b: Matrix): (r: Result<Matrix>)
    requires Grid(a) && Grid(b)
    ensures r.Err? <==> Rows(a) != Rows(b) || Cols(a) != Cols(b)
    ensures r.Err? ==> r.error == DimensionMismatch
    ensures r.Ok? ==> Grid(r.value) && Rows(r.value) == Rows(a) && Cols(r.value) == Cols(a)
    ensures r.Ok? ==> forall i, j :: 0 <= i < Rows(a) && 0 <= j < Cols(a) ==>
      r.value[i][j] == a[i][j] - b[i][j]
  {
    if Rows(a) != Rows(b) || Cols(a) != Cols(b) then Err(DimensionMismatch)
    else Ok(Combine(a, b, -1.0))
  }

  /** Subtracting what was added gives back the first operand. */
  lemma {:induction false} AddThenSubtract(a: Matrix, b: Matrix)
    requires Grid(a) && Grid(b) && Rows(a) == Rows(b) && Cols(a) == Cols(b)
    ensures Add(a, b).Ok? && Grid(Add(a, b).value)
    ensures Subtract(Add(a, b).value, b) == Ok(a)
  {
    var s := Add(a, b).value;
    var d := Subtract(s, b).value;
    assert |d| == |a|;
    forall i | 0 <= i < |a| ensures d[i] == a[i] {
      assert |d[i]| == |a[i]|;
      forall j | 0 <= j < |a[i]| ensures d[i][j] == a[i][j] {
        assert d[i][j] == s[i][j] - b[i][j];
        assert s[i][j] == a[i][j] + b[i][j];
      }
    }
    assert d == a;
  }

  /** Addition does not depend on the order of its operands. */
  lemma {:induction false} AddCommutes(a: Matrix, b: Matrix)
    requires Grid(a) && Grid(b)
    ensures Add(a, b) == Add(b, a)
  {
    if Add(a, b).Ok? {
      var s := Add(a, b).value;
      var t := Add(b, a).value;
      assert |s| == |t|;
      forall i | 0 <= i < |s| ensures s[i] == t[i] {
        assert |s[i]| == |t[i]|;
        forall j | 0 <= j < |s[i]| ensures s[i][j] == t[i][j] {
          assert s[i][j] == a[i][j] + b[i][j];
          assert t[i][j] == b[i][j] + a[i][j];
        }
      }
      assert s == t;
    }
  }

  // ---------------------------------------------------------------- multiply

  /** Column j of m as a vector. */
  function Column(m: Matrix, j: nat): (c: seq<real>)
    requires forall i :: 0 <= i < |m| ==> j < |m[i]|
    ensures |c| == |m| && forall i :: 0 <= i < |m| ==> c[i] == m[i][j]
  {
    seq(|m|, i requires 0 <= i < |m| => m[i][j])
  }

  /** The matrix product as a reference definition: entry (i, j) is row i of a
      against column j of b. */
  function Product(a: Matrix, b: Matrix): (r: Matrix)
    requires Grid(a) && Grid(b) && Cols(a) == Rows(b)
    ensures Grid(r) && Rows(r) == Rows(a) && Cols(r) == Cols(b)
  {
    seq(|a|, i requires 0 <= i < |a| =>
      seq(|b[0]|, j requires 0 <= j < |b[0]| => Dot(a[i], Column(b, j), 0, |a[0]|)))
  }

  /** The triple loop of the multiply branch, each entry accumulated over k from 0. */
  method MultiplyLoops(a: Matrix, b: Matrix) returns (res: Matrix)
    requires Grid(a) && Grid(b) && Cols(a) == Rows(b)
    ensures Grid(res) && Rows(res) == Rows(a) && Cols(res) == Cols(b)
    ensures res == Product(a, b)
  {
    var p := Cols(a);
    var q := Cols(b);
    res := [];
    var i := 0;
    while i < |a|
      invariant 0 <= i <= |a| && |res| == i
      invariant forall r :: 0 <= r < i ==> |res[r]| == q
      invariant forall r, j :: 0 <= r < i && 0 <= j < q ==> res[r][j] == Dot(a[r], Column(b, j), 0, p)
    {
      var row: seq<real> := [];
      var j := 0;
      while j < q
        invariant 0 <= j <= q && |row| == j
        invariant forall c :: 0 <= c < j ==> row[c] == Dot(a[i], Column(b, c), 0, p)
      {
        var acc := 0.0;
        var k := 0;
        while k < p
          invariant 0 <= k <= p && acc == Dot(a[i], Column(b, j), 0, k)
        {
          acc := acc + a[i][k] * b[k][j];
          k := k + 1;
        }
        row := row + [acc];
        j := j + 1;
      }
      res := res + [row];
      i := i + 1;
    }
    assert forall r :: 0 <= r < |a| ==> res[r] == Product(a, b)[r];
  }

  /** The n x n identity matrix. */
  function Identity(n: nat): (m: Matrix)
    ensures |m| == n && forall i :: 0 <= i < n ==> |m[i]| == n
    ensures forall i, j :: 0 <= i < n && 0 <= j < n ==> m[i][j] == if i == j then 1.0 else 0.0
  {
    seq(n, i requires 0 <= i < n => seq(n, j requires 0 <= j < n => if i == j then 1.0 else 0.0))
  }

  /** A unit row picks out one entry of the vector it is multiplied with. */
  lemma {:induction false} DotUnit(u: seq<real>, v: seq<real>, i: nat, n: nat)
    requires |u| == n && |v| == n && i < n
    requires forall j :: 0 <= j < n ==> u[j] == if j == i then 1.0 else 0.0
    ensures Dot(u, v, 0, n) == v[i]
  {
    DotSplit(u, v, 0, i, n);
    DotZero(u, v, 0, i);
    DotFront(u, v, i, n);
    DotZero(u, v, i + 1, n);
  }

  /** Multiplying by the identity on the left returns the other operand. */
  lemma {:induction false} ProductIdentityLeft(b: Matrix)
    requires Grid(b)
    ensures Grid(Identity(Rows(b))) && Cols(Identity(Rows(b))) == Rows(b)
    ensures Product(Identity(Rows(b)), b) == b
  {
    var n := Rows(b);
    var res := Product(Identity(n), b);
    forall i, j | 0 <= i < n && 0 <= j < Cols(b) ensures res[i][j] == b[i][j] {
      DotUnit(Identity(n)[i], Column(b, j), i, n);
    }
    assert forall i :: 0 <= i < n ==> res[i] == b[i];
  }

  // ---------------------------------------------------------------- determinant

  /** One line of the determinant log: a 2 x 2 shortcut or an n x n row-1 expansion. */
  datatype DetStep = TwoByTwo(value: real) | CofactorExpansion(size: nat, value: real)


  /** The matrix without row 0 and column j. */
  function Minor(m: Matrix, j: nat): (r: Matrix)
    requires Square(m) && j < |m|
    ensures |r| == |m| - 1 && Square(r)
  {
    seq(|m| - 1, i requires 0 <= i < |m| - 1 => m[i + 1][..j] + m[i + 1][j + 1..])
  }

  /** Entry (i, c) of the minor without column j comes from row i + 1 of m, skipping column j. */
  lemma {:induction false} MinorEntries(m: Matrix, j: nat)
    requires Square(m) && j < |m|
    ensures forall i, c :: 0 <= i < |m| - 1 && 0 <= c < |m| - 1 ==>
      Minor(m, j)[i][c] == if c < j then m[i + 1][c] else m[i + 1][c + 1]
  {
  }

  function Sign(j: nat): real {
    if j % 2 == 0 then 1.0 else -1.0
  }

  /** calculateDeterminant's value: 1 x 1 is the entry, 2 x 2 the cross product, larger
      matrices expand along row 0. */
  function DetValue(m: Matrix): real
    requires Square(m) && |m| >= 1
    decreases |m|, 1
  {
    if |m| == 1 then m[0][0]
    else if |m| == 2 then m[0][0] * m[1][1] - m[0][1] * m[1][0]
    else Combination(m[0], Cofactors(m), |m|)
  }

  /** The row-0 cofactor values Det(Minor(m, j)) for every column j. */
  function Cofactors(m: Matrix): (ds: seq<real>)
    requires Square(m) && |m| >= 2
    ensures |ds| == |m|
    decreases |m|, 0
  {
    seq(|m|, j requires 0 <= j < |m| => DetValue(Minor(m, j)))
  }

  /** The running sum of sign(j) * row[j] * ds[j] over the first k columns, accumulated
      left to right as the expansion loop does. */
  function Combination(row: seq<real>, ds: seq<real>, k: nat): real
    requires k <= |row| && k <= |ds|
  {
    if k == 0 then 0.0 else Combination(row, ds, k - 1) + Sign(k - 1) * (row[k - 1] * ds[k - 1])
  }

  /** calculateDeterminant's log: nothing for 1 x 1, one 2 x 2 line, or all the minors'
      lines in column order followed by one line for the expansion itself. The code builds
      the value and the log in the same recursion; they are separated here. */
  function DetLog(m: Matrix): (steps: seq<DetStep>)
    requires Square(m) && |m| >= 1
    ensures |m| == 1 ==> steps == []
    ensures |m| == 2 ==> steps == [TwoByTwo(DetValue(m))]
    ensures |m| >= 2 ==> |steps| >= 1 && steps[|steps| - 1].value == DetValue(m)
    decreases |m|, 1
  {
    if |m| == 1 then []
    else if |m| == 2 then [TwoByTwo(DetValue(m))]
    else ExpandLog(m, |m|) + [CofactorExpansion(|m|, DetValue(m))]
  }

  /** The minors' log lines for the first k columns. */
  function ExpandLog(m: Matrix, k: nat): seq<DetStep>
    requires Square(m) && |m| >= 2 && k <= |m|
    decreases |m|, 0, k
  {
    if k == 0 then [] else ExpandLog(m, k - 1) + DetLog(Minor(m, k - 1))
  }

  /** Number of log lines for an n x n determinant. */
  function StepCount(n: nat): nat {
    if n <= 1 then 0 else if n == 2 then 1 else n * StepCount(n - 1) + 1
  }

  lemma {:induction false} DetStepCount(m: Matrix)
    requires Square(m) && |m| >= 1
    ensures |DetLog(m)| == StepCount(|m|)
    ensures |m| >= 3 ==> DetLog(m)[|DetLog(m)| - 1] == CofactorExpansion(|m|, DetValue(m))
    decreases |m|, 1
  {
    if |m| >= 3 {
      ExpandStepCount(m, |m|);
    }
  }

  /** Lines [j * width, (j + 1) * width) of the log are exactly block. */
  predicate HasBlock(log: seq<DetStep>, j: nat, width: nat, block: seq<DetStep>) {
    (j + 1) * width <= |log| && log[j * width..(j + 1) * width] == block
  }

  /** Above 2 x 2, the log is the minors' logs in column order, one block of
      StepCount(n - 1) lines each, followed by the expansion line. */
  lemma {:induction false} DetLogBlocks(m: Matrix)
    requires Square(m) && |m| >= 3
    ensures forall j: nat :: j < |m| ==> HasBlock(DetLog(m), j, StepCount(|m| - 1), DetLog(Minor(m, j)))
  {
    forall j: nat | j < |m|
      ensures HasBlock(DetLog(m), j, StepCount(|m| - 1), DetLog(Minor(m, j)))
    {
      DetLogBlock(m, j);
    }
  }

  lemma {:induction false} DetLogBlock(m: Matrix, j: nat)
    requires Square(m) && |m| >= 3 && j < |m|
    ensures HasBlock(DetLog(m), j, StepCount(|m| - 1), DetLog(Minor(m, j)))
  {
    var log := ExpandLog(m, |m|);
    var count := StepCount(|m| - 1);
    assert DetLog(m) == log + [CofactorExpansion(|m|, DetValue(m))];
    ExpandLogBlock(m, |m|, j);
    MulSucc(j, count);
    SliceOfPrefix(log, [CofactorExpansion(|m|, DetValue(m))], j * count, (j + 1) * count);
  }

  lemma {:induction false} MulSucc(a: nat, c: nat)
    ensures a * c >= 0 && (a + 1) * c == a * c + c
  {
  }

  /** Within the first k columns' lines, the lines of column j's minor form the j-th block. */
  lemma {:induction false} ExpandLogBlock(m: Matrix, k: nat, j: nat)
    requires Square(m) && |m| >= 3 && j < k <= |m|
    ensures (j + 1) * StepCount(|m| - 1) <= |ExpandLog(m, k)|
    ensures ExpandLog(m, k)[j * StepCount(|m| - 1)..(j + 1) * StepCount(|m| - 1)] == DetLog(Minor(m, j))
    decreases |m|, 0, k
  {
    var count := StepCount(|m| - 1);
    var prefix := ExpandLog(m, k - 1);
    var last := DetLog(Minor(m, k - 1));
    ExpandStepCount(m, k - 1);
    DetStepCount(Minor(m, k - 1));
    assert ExpandLog(m, k) == prefix + last;
    var lo, hi := j * count, (j + 1) * count;
    MulSucc(j, count);
    if j == k - 1 {
      assert lo == |prefix| && hi == |prefix| + |last|;
      SliceOfSuffix(prefix, last);
    } else {
      ExpandLogBlock(m, k - 1, j);
      SliceOfPrefix(prefix, last, lo, hi);
    }
  }

  lemma {:induction false} SliceOfPrefix<T>(a: seq<T>, b: seq<T>, lo: nat, hi: nat)
    requires lo <= hi <= |a|
    ensures hi <= |a + b| && (a + b)[lo..hi] == a[lo..hi]
  {
    assert forall i :: lo <= i < hi ==> (a + b)[i] == a[i];
  }

  lemma {:induction false} SliceOfSuffix<T>(a: seq<T>, b: seq<T>)
    ensures (a + b)[|a|..|a| + |b|] == b
  {
  }

  lemma {:induction false} ExpandStepCount(m: Matrix, k: nat)
    requires Square(m) && |m| >= 3 && k <= |m|
    ensures |ExpandLog(m, k)| == k * StepCount(|m| - 1)
    decreases |m|, 0, k
  {
    if k > 0 {
      ExpandStepCount(m, k - 1);
      DetStepCount(Minor(m, k - 1));
      var count := StepCount(|m| - 1);
      assert |ExpandLog(m, k)| == |ExpandLog(m, k - 1)| + |DetLog(Minor(m, k - 1))|;
      assert (k - 1) * count + count == k * count;
    }
  }

  /** The 2 x 2 shortcut agrees with expanding a 2 x 2 matrix along row 0. */
  lemma {:induction false} TwoByTwoIsExpansion(m: Matrix)
    requires Square(m) && |m| == 2
    ensures DetValue(m) == Combination(m[0], Cofactors(m), 2)
  {
    var ds := Cofactors(m);
    MinorEntries(m, 0);
    MinorEntries(m, 1);
    assert ds[0] == DetValue(Minor(m, 0)) == m[1][1];
    assert ds[1] == DetValue(Minor(m, 1)) == m[1][0];
    assert Combination(m[0], ds, 1) == m[0][0] * m[1][1];
  }

  /** Product of the diagonal entries from row i down. */
  function DiagonalProduct(m: Matrix, i: nat): real
    requires Square(m) && i <= |m|
    decreases |m| - i
  {
    if i == |m| then 1.0 else m[i][i] * DiagonalProduct(m, i + 1)
  }

  predicate LowerTriangular(m: Matrix)
    requires Square(m)
  {
    forall i, j :: 0 <= i < j < |m| ==> m[i][j] == 0.0
  }

  /** A row whose only non-zero entry is the first contributes one term to the expansion. */
  lemma {:induction false} LeadingTermOnly(row: seq<real>, ds: seq<real>, k: nat)
    requires 1 <= k <= |row| && k <= |ds|
    requires forall j :: 1 <= j < |row| ==> row[j] == 0.0
    ensures Combination(row, ds, k) == row[0] * ds[0]
  {
    if k > 1 {
      LeadingTermOnly(row, ds, k - 1);
      assert row[k - 1] == 0.0;
    }
  }

  /** Deleting row 0 and column 0 of a lower-triangular matrix leaves it lower triangular. */
  lemma {:induction false} MinorLowerTriangular(m: Matrix)
    requires Square(m) && |m| >= 2 && LowerTriangular(m)
    ensures LowerTriangular(Minor(m, 0))
  {
    MinorEntries(m, 0);
  }

  lemma {:induction false} MinorDiagonal(m: Matrix, i: nat)
    requires Square(m) && |m| >= 1 && i <= |m| - 1
    ensures DiagonalProduct(Minor(m, 0), i) == DiagonalProduct(m, i + 1)
    decreases |m| - i
  {
    if i < |m| - 1 {
      MinorDiagonal(m, i + 1);
    }
  }

  /** A lower-triangular determinant is the product of its diagonal. */
  lemma {:induction false} DetLowerTriangular(m: Matrix)
    requires Square(m) && |m| >= 1 && LowerTriangular(m)
    ensures DetValue(m) == DiagonalProduct(m, 0)
    decreases |m|
  {
    if |m| == 1 {
      assert DiagonalProduct(m, 1) == 1.0;
    } else if |m| == 2 {
      assert DiagonalProduct(m, 2) == 1.0;
      assert DiagonalProduct(m, 1) == m[1][1];
      assert m[0][1] == 0.0;
    } else {
      var mi := Minor(m, 0);
      MinorLowerTriangular(m);
      DetLowerTriangular(mi);
      MinorDiagonal(m, 0);
      assert forall j :: 1 <= j < |m[0]| ==> m[0][j] == 0.0;
      LeadingTermOnly(m[0], Cofactors(m), |m|);
    }
  }

  lemma {:induction false} DiagonalOfIdentity(n: nat, i: nat)
    requires i <= n
    ensures DiagonalProduct(Identity(n), i) == 1.0
    decreases n - i
  {
    if i < n {
      DiagonalOfIdentity(n, i + 1);
    }
  }

  /** The identity has determinant 1 at every size. */
  lemma {:induction false} DetIdentity(n: nat)
    requires n >= 1
    ensures DetValue(Identity(n)) == 1.0
  {
    DetLowerTriangular(Identity(n));
    DiagonalOfIdentity(n, 0);
  }

  /** Two matrices that differ at most in row 0. */
  predicate SameBelowRowZero(a: Matrix, b: Matrix) {
    |a| == |b| && forall i :: 1 <= i < |a| ==> a[i] == b[i]
  }

  /** Minors never look at row 0. */
  lemma {:induction false} MinorIgnoresRowZero(a: Matrix, b: Matrix, j: nat)
    requires Square(a) && Square(b) && SameBelowRowZero(a, b) && j < |a|
    ensures Minor(a, j) == Minor(b, j)
  {
    var ma := Minor(a, j);
    var mb := Minor(b, j);
    forall i | 0 <= i < |ma| ensures ma[i] == mb[i] {
      assert |ma[i]| == |mb[i]|;
    }
  }

  lemma {:induction false} CombinationLinear(ra: seq<real>, rb: seq<real>, rc: seq<real>, ds: seq<real>, s: real, k: nat)
    requires k <= |ra| == |rb| == |rc| == |ds|
    requires forall j :: 0 <= j < |ra| ==> rc[j] == s * ra[j] + rb[j]
    ensures Combination(rc, ds, k) == s * Combination(ra, ds, k) + Combination(rb, ds, k)
  {
    if k > 0 {
      CombinationLinear(ra, rb, rc, ds, s, k - 1);
      LinearStep(Combination(ra, ds, k - 1), Combination(rb, ds, k - 1), Combination(rc, ds, k - 1),
        Sign(k - 1), ds[k - 1], ra[k - 1], rb[k - 1], rc[k - 1], s);
    }
  }

  lemma {:induction false} CofactorsIgnoreRowZero(a: Matrix, c: Matrix)
    requires Square(a) && Square(c) && |a| >= 2 && SameBelowRowZero(a, c)
    ensures Cofactors(a) == Cofactors(c)
  {
    forall j | 0 <= j < |a|
      ensures Cofactors(a)[j] == Cofactors(c)[j]
    {
      MinorIgnoresRowZero(a, c, j);
    }
  }

  /** One more term keeps a linear relation between three running sums. */
  lemma {:induction false} LinearStep(pa: real, pb: real, pc: real, g: real, d: real, ua: real, ub: real, uc: real, s: real)
    requires pc == s * pa + pb && uc == s * ua + ub
    ensures pc + g * (uc * d) == s * (pa + g * (ua * d)) + (pb + g * (ub * d))
  {
    assert g * (uc * d) == s * (g * (ua * d)) + g * (ub * d);
  }

  lemma {:induction false} CrossLinear(a0: real, a1: real, b0: real, b1: real, c0: real, c1: real, p: real, q: real, s: real)
    requires c0 == s * a0 + b0 && c1 == s * a1 + b1
    ensures c0 * q - c1 * p == s * (a0 * q - a1 * p) + (b0 * q - b1 * p)
  {
  }

  /** The determinant is linear in row 0, for every size and both code paths. */
  lemma {:induction false} DetRowLinear(a: Matrix, b: Matrix, c: Matrix, s: real)
    requires Square(a) && Square(b) && Square(c) && |a| >= 1
    requires SameBelowRowZero(a, c) && SameBelowRowZero(b, c)
    requires forall j :: 0 <= j < |a| ==> c[0][j] == s * a[0][j] + b[0][j]
    ensures DetValue(c) == s * DetValue(a) + DetValue(b)
  {
    if |a| == 1 {
      DetRowLinearOne(a, b, c, s);
    } else if |a| == 2 {
      DetRowLinearTwo(a, b, c, s);
    } else {
      DetRowLinearExpand(a, b, c, s);
    }
  }

  lemma {:induction false} DetRowLinearExpand(a: Matrix, b: Matrix, c: Matrix, s: real)
    requires Square(a) && Square(b) && Square(c) && |a| >= 3
    requires SameBelowRowZero(a, c) && SameBelowRowZero(b, c)
    requires forall j :: 0 <= j < |a| ==> c[0][j] == s * a[0][j] + b[0][j]
    ensures DetValue(c) == s * DetValue(a) + DetValue(b)
  {
    CofactorsIgnoreRowZero(a, c);
    CofactorsIgnoreRowZero(b, c);
    CombinationLinear(a[0], b[0], c[0], Cofactors(c), s, |a|);
  }

  lemma {:induction false} DetRowLinearOne(a: Matrix, b: Matrix, c: Matrix, s: real)
    requires Square(a) && Square(b) && Square(c) && |a| == 1 && |b| == 1 && |c| == 1
    requires c[0][0] == s * a[0][0] + b[0][0]
    ensures DetValue(c) == s * DetValue(a) + DetValue(b)
  {
  }

  lemma {:induction false} DetRowLinearTwo(a: Matrix, b: Matrix, c: Matrix, s: real)
    requires Square(a) && Square(b) && Square(c) && |a| == 2 && |b| == 2 && |c| == 2
    requires a[1] == c[1] && b[1] == c[1]
    requires c[0][0] == s * a[0][0] + b[0][0] && c[0][1] == s * a[0][1] + b[0][1]
    ensures DetValue(c) == s * DetValue(a) + DetValue(b)
  {
    DetTwoValue(a);
    DetTwoValue(b);
    DetTwoValue(c);
    CrossLinear(a[0][0], a[0][1], b[0][0], b[0][1], c[0][0], c[0][1], c[1][0], c[1][1], s);
  }

  lemma {:induction false} DetTwoValue(m: Matrix)
    requires Square(m) && |m| == 2
    ensures DetValue(m) == m[0][0] * m[1][1] - m[0][1] * m[1][0]
  {
  }

  // ---------------------------------------------------------------- calculate

  datatype Operation = AddOp | SubtractOp | MultiplyOp | DeterminantOp

  /** The result panel: a matrix, plus the determinant log for the determinant. */
  datatype Calculation = Calculation(result: Matrix, detSteps: seq<DetStep>)

  /** The calculate handler after the grids have been parsed; b is not read for a
      determinant. The determinant log is empty except after a determinant. */
  method Calculate(op: Operation, a: Matrix, b: Matrix) returns (r: Result<Calculation>)
    requires Grid(a) && (op != DeterminantOp ==> Grid(b))
    ensures op == AddOp ==> (r.Ok? <==> Add(a, b).Ok?) && (r.Ok? ==> r.value == Calculation(Add(a, b).value, []))
    ensures op == SubtractOp ==>
      (r.Ok? <==> Subtract(a, b).Ok?) && (r.Ok? ==> r.value == Calculation(Subtract(a, b).value, []))
    ensures op == MultiplyOp ==> (r.Err? <==> Cols(a) != Rows(b))
    ensures op == MultiplyOp && r.Ok? ==> r.value == Calculation(Product(a, b), [])
    ensures op == DeterminantOp ==> (r.Err? <==> Rows(a) != Cols(a))
    ensures op == DeterminantOp && r.Ok? ==>
      Square(a) && r.value == Calculation([[DetValue(a)]], DetLog(a))
    ensures r.Err? ==> r.error == (if op == DeterminantOp then NotSquare else DimensionMismatch)
  {
    match op
    case AddOp =>
      var s := Add(a, b);
      r := if s.Ok? then Ok(Calculation(s.value, [])) else Err(s.error);
    case SubtractOp =>
      var s := Subtract(a, b);
      r := if s.Ok? then Ok(Calculation(s.value, [])) else Err(s.error);
    case MultiplyOp =>
      if Cols(a) != Rows(b) {
        r := Err(DimensionMismatch);
      } else {
        var p := MultiplyLoops(a, b);
        r := Ok(Calculation(p, []));
      }
    case DeterminantOp =>
      if Rows(a) != Cols(a) {
        r := Err(NotSquare);
      } else {
        r := Ok(Calculation([[DetValue(a)]], DetLog(a)));
      }
  }
}
