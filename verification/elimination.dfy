/** Row-reduction machinery shared by the linear-system solver and the least-squares
    fitter: augmented systems [A|b], elementary row operations and the fact that they
    keep the solution set, the largest-pivot scan, and back-substitution. */
module Elimination {
  import opened Common

  /** An n x (n+1) augmented matrix [A|b]. */
  predicate Augmented(m: Matrix, n: nat) {
    IsMatrix(m, n, n + 1)
  }

  /** x satisfies one equation: sum_j row[j] * x[j] == row[n]. */
  predicate RowHolds(row: seq<real>, x: seq<real>, n: nat)
    requires |row| == n + 1 && |x| == n
  {
    Dot(row, x, 0, n) == row[n]
  }

  /** x solves every equation of the augmented system. */
  predicate Satisfies(m: Matrix, x: seq<real>, n: nat)
    requires Augmented(m, n) && |x| == n
  {
    forall i :: 0 <= i < n ==> RowHolds(m[i], x, n)
  }

  /** Two systems with exactly the same solutions. */
  ghost predicate SameSolutions(a: Matrix, b: Matrix, n: nat)
    requires Augmented(a, n) && Augmented(b, n)
  {
    forall x: seq<real> :: |x| == n ==> (Satisfies(a, x, n) <==> Satisfies(b, x, n))
  }

  lemma {:induction false} SameSolutionsTrans(a: Matrix, b: Matrix, c: Matrix, n: nat)
    requires Augmented(a, n) && Augmented(b, n) && Augmented(c, n)
    requires SameSolutions(a, b, n) && SameSolutions(b, c, n)
    ensures SameSolutions(a, c, n)
  {
  }

  /** Entries strictly below the diagonal are exactly zero. */
  predicate LowerZero(u: Matrix, n: nat)
    requires Augmented(u, n)
  {
    forall i, j :: 0 <= j < i < n ==> u[i][j] == 0.0
  }

  /** x satisfies the upper-triangular part of every row: sum_{j >= i} u[i][j] x[j] == u[i][n]. */
  predicate UpperHolds(u: Matrix, x: seq<real>, n: nat)
    requires Augmented(u, n) && |x| == n
  {
    forall i :: 0 <= i < n ==> Dot(u[i], x, i, n) == u[i][n]
  }

  predicate NonZeroDiagonal(u: Matrix, n: nat)
    requires Augmented(u, n)
  {
    forall i :: 0 <= i < n ==> u[i][i] != 0.0
  }

  // ---------------------------------------------------------------- row operations

  /** Exchange rows i and j (a destructuring swap in the source). */
  function SwapRows(m: Matrix, i: nat, j: nat): (r: Matrix)
    requires i < |m| && j < |m|
    ensures |r| == |m| && r[i] == m[j] && r[j] == m[i]
    ensures forall t :: 0 <= t < |m| && t != i && t != j ==> r[t] == m[t]
  {
    m[i := m[j]][j := m[i]]
  }

  /** row[j] -= f * pivotRow[j] for the columns j >= from; earlier columns are left alone. */
  function SubtractFrom(row: seq<real>, pivotRow: seq<real>, from: nat, f: real): (r: seq<real>)
    requires |pivotRow| == |row|
    ensures |r| == |row|
    ensures forall j :: 0 <= j < from && j < |row| ==> r[j] == row[j]
    ensures forall j :: from <= j < |row| ==> r[j] == row[j] - f * pivotRow[j]
  {
    seq(|row|, j requires 0 <= j < |row| => if j < from then row[j] else row[j] - f * pivotRow[j])
  }

  /** row[j] /= p for the columns j >= from. */
  function DivideFrom(row: seq<real>, from: nat, p: real): (r: seq<real>)
    requires p != 0.0
    ensures |r| == |row|
    ensures forall j :: 0 <= j < from && j < |row| ==> r[j] == row[j]
    ensures forall j :: from <= j < |row| ==> r[j] * p == row[j]
  {
    seq(|row|, j requires 0 <= j < |row| => if j < from then row[j] else row[j] / p)
  }

  lemma {:induction false} SwapKeepsSolutions(m: Matrix, n: nat, i: nat, j: nat)
    requires Augmented(m, n) && i < n && j < n
    ensures Augmented(SwapRows(m, i, j), n)
    ensures SameSolutions(m, SwapRows(m, i, j), n)
  {
    var s := SwapRows(m, i, j);
    forall x: seq<real> | |x| == n
      ensures Satisfies(m, x, n) <==> Satisfies(s, x, n)
    {
      if Satisfies(m, x, n) {
        forall t | 0 <= t < n ensures RowHolds(s[t], x, n) {
          if t == i { assert RowHolds(m[j], x, n); }
          else if t == j { assert RowHolds(m[i], x, n); }
          else { assert RowHolds(m[t], x, n); }
        }
      }
      if Satisfies(s, x, n) {
        forall t | 0 <= t < n ensures RowHolds(m[t], x, n) {
          if t == i { assert RowHolds(s[j], x, n); }
          else if t == j { assert RowHolds(s[i], x, n); }
          else { assert RowHolds(s[t], x, n); }
        }
      }
    }
  }

  /** Replacing row i by (row i) - f * (row k), k != i, keeps the solution set. */
  lemma {:induction false} CombineKeepsSolutions(m: Matrix, n: nat, i: nat, k: nat, f: real, c: seq<real>)
    requires Augmented(m, n) && i < n && k < n && i != k && |c| == n + 1
    requires forall j :: 0 <= j <= n ==> c[j] == m[i][j] - f * m[k][j]
    ensures Augmented(m[i := c], n)
    ensures SameSolutions(m, m[i := c], n)
  {
    var s := m[i := c];
    forall x: seq<real> | |x| == n
      ensures Satisfies(m, x, n) <==> Satisfies(s, x, n)
    {
      DotLinear(m[i], m[k], c, f, x, 0, n);
      if Satisfies(m, x, n) {
        assert RowHolds(m[i], x, n) && RowHolds(m[k], x, n);
        forall t | 0 <= t < n ensures RowHolds(s[t], x, n) {
          if t != i { assert RowHolds(m[t], x, n); }
        }
      }
      if Satisfies(s, x, n) {
        assert RowHolds(s[i], x, n) && RowHolds(s[k], x, n);
        forall t | 0 <= t < n ensures RowHolds(m[t], x, n) {
          if t != i { assert RowHolds(s[t], x, n); }
        }
      }
    }
  }

  /** Dividing row k by a non-zero p keeps the solution set. */
  lemma {:induction false} ScaleKeepsSolutions(m: Matrix, n: nat, k: nat, p: real, c: seq<real>)
    requires Augmented(m, n) && k < n && p != 0.0 && |c| == n + 1
    requires forall j :: 0 <= j <= n ==> c[j] == m[k][j] / p
    ensures Augmented(m[k := c], n)
    ensures SameSolutions(m, m[k := c], n)
  {
    var s := m[k := c];
    forall x: seq<real> | |x| == n
      ensures Satisfies(m, x, n) <==> Satisfies(s, x, n)
    {
      DotScale(m[k], c, p, x, 0, n);
      if Satisfies(m, x, n) {
        assert RowHolds(m[k], x, n);
        forall t | 0 <= t < n ensures RowHolds(s[t], x, n) {
          if t != k { assert RowHolds(m[t], x, n); }
        }
      }
      if Satisfies(s, x, n) {
        assert RowHolds(s[k], x, n);
        assert c[n] * p == m[k][n];
        assert Dot(c, x, 0, n) * p == Dot(m[k], x, 0, n);
        forall t | 0 <= t < n ensures RowHolds(m[t], x, n) {
          if t != k { assert RowHolds(s[t], x, n); }
        }
      }
    }
  }

  /** When the pivot row is zero left of `from`, the partial update of SubtractFrom
      is the full row operation, so it keeps the solution set. */
  lemma {:induction false} SubtractKeepsSolutions(m: Matrix, n: nat, i: nat, k: nat, from: nat, f: real)
    requires Augmented(m, n) && i < n && k < n && i != k
    requires forall j :: 0 <= j < from && j <= n ==> m[k][j] == 0.0
    ensures Augmented(m[i := SubtractFrom(m[i], m[k], from, f)], n)
    ensures SameSolutions(m, m[i := SubtractFrom(m[i], m[k], from, f)], n)
  {
    CombineKeepsSolutions(m, n, i, k, f, SubtractFrom(m[i], m[k], from, f));
  }

  /** When row k is zero left of `from`, the partial division is a full row scaling. */
  lemma {:induction false} DivideKeepsSolutions(m: Matrix, n: nat, k: nat, from: nat, p: real)
    requires Augmented(m, n) && k < n && p != 0.0
    requires forall j :: 0 <= j < from && j <= n ==> m[k][j] == 0.0
    ensures Augmented(m[k := DivideFrom(m[k], from, p)], n)
    ensures SameSolutions(m, m[k := DivideFrom(m[k], from, p)], n)
  {
    var c := DivideFrom(m[k], from, p);
    forall j | 0 <= j <= n ensures c[j] == m[k][j] / p {
      if j >= from {
        assert c[j] * p == m[k][j];
      }
    }
    ScaleKeepsSolutions(m, n, k, p, c);
  }

  // ---------------------------------------------------------------- pivot choice

  /** Scan rows i.. for a strictly larger |m[r][k]| than the best so far. */
  function MaxScan(m: Matrix, k: nat, i: nat, best: nat): (p: nat)
    requires forall r :: 0 <= r < |m| ==> k < |m[r]|
    requires k <= best < i <= |m|
    requires forall r :: k <= r < i ==> Abs(m[r][k]) <= Abs(m[best][k])
    requires forall r :: k <= r < best ==> Abs(m[r][k]) < Abs(m[best][k])
    ensures k <= p < |m|
    ensures forall r :: k <= r < |m| ==> Abs(m[r][k]) <= Abs(m[p][k])
    ensures forall r :: k <= r < p ==> Abs(m[r][k]) < Abs(m[p][k])
    decreases |m| - i
  {
    if i == |m| then best
    else if Abs(m[i][k]) > Abs(m[best][k]) then MaxScan(m, k, i + 1, i)
    else MaxScan(m, k, i + 1, best)
  }

  /** The first row r >= k whose |m[r][k]| is largest: ties keep the lower index. */
  function MaxPivotRow(m: Matrix, k: nat): (p: nat)
    requires k < |m| && forall r :: 0 <= r < |m| ==> k < |m[r]|
    ensures k <= p < |m|
    ensures forall r :: k <= r < |m| ==> Abs(m[r][k]) <= Abs(m[p][k])
    ensures forall r :: k <= r < p ==> Abs(m[r][k]) < Abs(m[p][k])
  {
    MaxScan(m, k, k + 1, k)
  }

  // ---------------------------------------------------------------- back-substitution

  /** x[i] = (u[i][n] - sum_{j > i} u[i][j] x[j]) / u[i][i], for i = n-1 down to 0. */
  method BackSubstitute(u: Matrix, n: nat) returns (x: seq<real>)
    requires Augmented(u, n) && NonZeroDiagonal(u, n)
    ensures |x| == n
    ensures UpperHolds(u, x, n)
  {
    x := seq(n, _ => 0.0);
    var i := n;
    while i > 0
      invariant 0 <= i <= n && |x| == n
      invariant forall r :: i <= r < n ==> Dot(u[r], x, r, n) == u[r][n]
    {
      i := i - 1;
      var s := 0.0;
      var j := i + 1;
      while j < n
        invariant i + 1 <= j <= n
        invariant s == Dot(u[i], x, i + 1, j)
      {
        s := s + u[i][j] * x[j];
        j := j + 1;
      }
      var prev := x;
      x := x[i := (u[i][n] - s) / u[i][i]];
      forall r | i < r < n ensures Dot(u[r], x, r, n) == u[r][n] {
        DotFrame(u[r], prev, x, r, n);
      }
      DotFront(u[i], x, i, n);
      DotFrame(u[i], prev, x, i + 1, n);
    }
  }

  /** With zeros below the diagonal, the triangular rows are the whole equations. */
  lemma {:induction false} UpperHoldsSatisfies(u: Matrix, x: seq<real>, n: nat)
    requires Augmented(u, n) && |x| == n
    requires LowerZero(u, n) && UpperHolds(u, x, n)
    ensures Satisfies(u, x, n)
  {
    forall i | 0 <= i < n ensures RowHolds(u[i], x, n) {
      DotSplit(u[i], x, 0, i, n);
      DotZero(u[i], x, 0, i);
    }
  }

  /** A triangular system with a non-zero diagonal has at most one solution. */
  lemma {:induction false} UpperUnique(u: Matrix, x: seq<real>, y: seq<real>, n: nat)
    requires Augmented(u, n) && |x| == n && |y| == n && NonZeroDiagonal(u, n)
    requires UpperHolds(u, x, n) && UpperHolds(u, y, n)
    ensures x == y
  {
    UpperUniqueFrom(u, x, y, n, 0);
  }

  lemma {:induction false} UpperUniqueFrom(u: Matrix, x: seq<real>, y: seq<real>, n: nat, i: nat)
    requires Augmented(u, n) && |x| == n && |y| == n && NonZeroDiagonal(u, n) && i <= n
    requires UpperHolds(u, x, n) && UpperHolds(u, y, n)
    ensures forall j :: i <= j < n ==> x[j] == y[j]
    decreases n - i
  {
    if i < n {
      UpperUniqueFrom(u, x, y, n, i + 1);
      DotFront(u[i], x, i, n);
      DotFront(u[i], y, i, n);
      DotFrame(u[i], x, y, i + 1, n);
      Cancel(u[i][i], x[i], y[i], Dot(u[i], x, i + 1, n), u[i][n]);
    }
  }

  /** A row satisfied by a solution of a lower-zero system agrees with its triangular part. */
  lemma {:induction false} SatisfiesUpperHolds(u: Matrix, x: seq<real>, n: nat)
    requires Augmented(u, n) && |x| == n
    requires LowerZero(u, n) && Satisfies(u, x, n)
    ensures UpperHolds(u, x, n)
  {
    forall i | 0 <= i < n ensures Dot(u[i], x, i, n) == u[i][n] {
      assert RowHolds(u[i], x, n);
      DotSplit(u[i], x, 0, i, n);
      DotZero(u[i], x, 0, i);
    }
  }
}
