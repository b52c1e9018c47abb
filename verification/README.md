# Numerical methods, modelled in Dafny

A model of the algorithms behind a study app for numerical methods. The app is a set
of React components, and each button handler runs one self-contained computation:

- **Linear systems** (`LinearSystemSolver.tsx`):
  - Gauss elimination, Gauss elimination with the largest pivot, and Gauss-Jordan, each
    with a step trace and back-substitution.
  - Jacobi and Gauss-Seidel iteration, capped at 15 sweeps.
- **Matrix calculator** (`MatrixCalculator.tsx`):
  - add, subtract and multiply, each with its dimension check;
  - the recursive cofactor-expansion determinant and its step log;
  - the clamp of the requested matrix size.
- **Root finding, curve fitting, interpolation** (`Exam2Solver.tsx`):
  - bisection, false position and Newton-Raphson, capped at 15 rows;
  - least squares through the normal equations, solved by Gaussian elimination with
    partial pivoting;
  - the log-linearised exponential model, solved by Cramer's rule;
  - Newton divided-difference and Lagrange interpolation.
- **Differentiation and integration** (`Exam3Solver.tsx`):
  - forward, backward and central differences of first and second order, with the
    absolute and relative error;
  - the composite trapezoid, Simpson 1/3 and Simpson 3/8 rules, and the Romberg table.
- **Ordinary differential equations** (`Exam4Solver.tsx`):
  - classical fourth-order Runge-Kutta for y' = f(x, y);
  - the same method on the system y' = z, z' = f(x, y, z) that a second-order equation
    reduces to;
  - both march in steps of h up to the target, at most 100 steps.

### Modelling choices

- **Arithmetic.** All arithmetic is exact `real`. The app's tolerance constants are kept
  as real constants, with their own value at each site:
  - 1e-10 in the linear-system solver (`DirectSolver.Eps`);
  - 1e-12 for the curve fitter's pivots (`CurveFitting.Tiny`);
  - 1e-12 for the false-position denominator and the Newton derivative
    (`RootFinding.Tiny`);
  - 1e-9 for the ODE loop (`OdeSolvers.Slack`).
- **Expressions.** A user's expression is a total Dafny function passed in as a
  parameter. Where the app differentiates an expression symbolically, the derivative is
  also a parameter.
- **Inputs.** A blank input field is `None`. Every error the handlers throw is a
  `Failure` in a `Result`.

### Module layout

One module per component, plus two shared ones:

- `Common`: results, failures, `Abs`, `Dot`, and small real-arithmetic lemmas.
- `Elimination`: row operations and the proof that they keep the solution set, the
  largest-pivot scan, and back-substitution. It is shared by the direct solver and the
  curve fitter.
- `DirectSolver`, `IterativeSolver`, `MatrixCalculator`, `RootFinding`, `CurveFitting`,
  `Interpolation`, `Differentiation`, `Integration`, `OdeSolvers`.

### Behaviour of the code worth knowing

- **Gauss pivot search.** `LinearSystemSolver.tsx:128-136` takes the first lower row whose
  entry exceeds 1e-10 in magnitude. Lines 186-196 skip every row whose elimination factor
  is at most 1e-10 in magnitude (`DirectSolver.PivotRow`, `DirectSolver.EliminateBelow`).
- **Repeated abscissae.** `Exam2Solver.tsx:766-821` divides by x_j - x_i with no check
  for equal abscissae. See "Findings".
- **Exponential fit.** `Exam2Solver.tsx:559-561` divides by the determinant without a
  guard. See "Findings".

## Model

| member | source | states |
|---|---|---|
| DirectSolver.FirstUsable | components/LinearSystemSolver.tsx:128-136 | the first row at or after i whose column-k entry exceeds 1e-10 in magnitude, with every row before it at most 1e-10; k when there is none |
| DirectSolver.PivotRow | components/LinearSystemSolver.tsx:119-136 | max-pivot takes the first row of largest magnitude in column k, so ties keep the lower index. Gauss and Gauss-Jordan move away from row k exactly when the diagonal entry is below 1e-10 and some lower entry exceeds 1e-10 |
| DirectSolver.EliminateBelow | components/LinearSystemSolver.tsx:183-198 | rows above the current one are unchanged. A lower row whose factor exceeds 1e-10 becomes the row minus factor times the pivot row from column k on, with column k set to exactly 0. Every other row is kept, and its column-k entry is at most 1e-10 times the pivot. Columns left of k never change. The step trace is stated by DirectSolver.EliminateBelowSteps |
| DirectSolver.RowsBelow | components/LinearSystemSolver.tsx:183-198 | the rows after the pivot row whose factor exceeds 1e-10 in magnitude, in strictly increasing order |
| DirectSolver.RowsBelowExact | components/LinearSystemSolver.tsx:183-198 | a row is listed iff it lies below the pivot row and its factor exceeds 1e-10 in magnitude |
| DirectSolver.EliminateBelowSteps | components/LinearSystemSolver.tsx:186-196 | the Gauss trace of column k holds one Eliminate(k, r) step for each updated row r, in increasing r. Each step's snapshot has the rows up to r in their final form and the later rows as they were |
| DirectSolver.EliminateOthers | components/LinearSystemSolver.tsx:167-180 | the pivot row is kept. Every other row whose column-k entry exceeds 1e-10 loses that multiple of the pivot row from column k on. The rest are kept, and every recorded step is an elimination in column k. The step trace is stated by DirectSolver.EliminateOthersSteps |
| DirectSolver.RowsOthers | components/LinearSystemSolver.tsx:167-180 | the rows other than the pivot row whose column-k entry exceeds 1e-10 in magnitude, in strictly increasing order |
| DirectSolver.RowsOthersExact | components/LinearSystemSolver.tsx:167-180 | a row is listed iff it is not the pivot row and its column-k entry exceeds 1e-10 in magnitude |
| DirectSolver.EliminateOthersSteps | components/LinearSystemSolver.tsx:169-178 | the Gauss-Jordan trace of column k holds one Eliminate(k, r) step for each updated row r, in increasing r. Each step's snapshot has the rows up to r in their final form and the later rows as they were |
| DirectSolver.JordanColumn | components/LinearSystemSolver.tsx:153-181 | a Normalize step is recorded iff the pivot is more than 1e-10 from 1. In that case the pivot row is divided by the pivot and the pivot becomes exactly 1; otherwise the row is kept |
| DirectSolver.Pivoted | components/LinearSystemSolver.tsx:143-151 | the chosen pivot row moves to position k, and the rows above k are untouched |
| DirectSolver.ForwardStep | components/LinearSystemSolver.tsx:118-199 | column k fails with SingularMatrix(k) iff the chosen pivot is below 1e-10. A Swap step is recorded iff the pivot row differs from k. After the step the pivot is at least 1e-10 in magnitude, or within 1e-10 of 1 for Gauss-Jordan |
| DirectSolver.Forward | components/LinearSystemSolver.tsx:118-199 | the forward phase succeeds iff running ForwardStep column by column from k to n never fails, and then it returns that run's result. On failure it names a column c whose ForwardStep fails on the matrix that columns k .. c-1 produced without failing. On success the block left of column k is kept, and every pivot from k on is at least 1e-10 in magnitude, or within 1e-10 of 1 for Gauss-Jordan |
| DirectSolver.ForwardStepKeepsSolutions | components/LinearSystemSolver.tsx:118-199 | one column's swap, normalisation and elimination keep the system's solution set exactly |
| DirectSolver.PivotedKeepsSolutions | components/LinearSystemSolver.tsx:143-151 | the row swap keeps the solution set |
| DirectSolver.ColumnKeepsSolutions | components/LinearSystemSolver.tsx:153-198 | the elimination of either method in column k keeps the solution set |
| DirectSolver.JordanKeepsSolutions | components/LinearSystemSolver.tsx:153-181 | normalising and clearing column k keep the solution set |
| DirectSolver.EliminateBelowKeepsSolutions | components/LinearSystemSolver.tsx:183-198 | the Gauss updates, including writing the exact 0, keep the solution set while the pivot row is zero left of k |
| DirectSolver.EliminateOthersKeepsSolutions | components/LinearSystemSolver.tsx:167-180 | the Gauss-Jordan updates keep the solution set |
| DirectSolver.ForwardKeepsSolutions | components/LinearSystemSolver.tsx:118-199 | a forward phase that ends exactly triangular has the same solutions as the input |
| DirectSolver.IdentitySatisfies | components/LinearSystemSolver.tsx:204-207 | on a reduced matrix whose coefficient part is the identity, x solves the system iff x is its last column |
| DirectSolver.SolveDirect | components/LinearSystemSolver.tsx:105-231 | fails iff elimination reaches a singular column, and the error names the same column the forward phase fails at (the column the message reports). The trace starts with the unmodified input and ends with the echelon (or reduced echelon) snapshot; between them it is exactly the forward phase's trace, and the reduced matrix is the forward phase's result. Back-substitution satisfies every row of the triangular result; Gauss-Jordan reads x from column n. When the result is exactly triangular (identity), x is the unique exact solution of the input |
| DirectSolver.GaussExact | components/LinearSystemSolver.tsx:219-226 | back-substitution on an exactly triangular result gives a solution of the input system, and the only one |
| DirectSolver.JordanExact | components/LinearSystemSolver.tsx:204-207 | reading column n of an exact reduced form gives the input's unique solution |
| DirectSolver.SingularExample | components/LinearSystemSolver.tsx:139-141 | for the rank-one system [[1,2,3],[2,4,6]] all three methods fail with a singular second column |
| DirectSolver.SingularFirstColumn | components/LinearSystemSolver.tsx:118-199 | on that system the first column is eliminated by every method, leaving an exact 0 on the second diagonal place |
| DirectSolver.SingularSecondColumn | components/LinearSystemSolver.tsx:139-141 | a zero in the last diagonal place with nothing below it is reported as singular by every method |
| Elimination.SwapRows | components/LinearSystemSolver.tsx:143-151 | exactly rows i and j trade places |
| Elimination.DivideFrom | components/LinearSystemSolver.tsx:155-158 | columns from the start on are divided by the pivot, earlier ones kept |
| Elimination.SwapKeepsSolutions | components/LinearSystemSolver.tsx:143-151 | a row swap keeps the solution set |
| Elimination.SubtractKeepsSolutions | components/LinearSystemSolver.tsx:186-188 | subtracting a multiple of another row keeps the solution set |
| Elimination.DivideKeepsSolutions | components/LinearSystemSolver.tsx:155-158 | dividing a row by a non-zero pivot keeps the solution set |
| Elimination.MaxPivotRow | components/LinearSystemSolver.tsx:120-127 | a row at or after k whose entry is largest in magnitude, and no earlier row reaches it |
| Elimination.BackSubstitute | components/LinearSystemSolver.tsx:219-226 | with a non-zero diagonal, the computed x satisfies every row of the upper part exactly |
| Elimination.UpperUnique | components/LinearSystemSolver.tsx:219-226 | two vectors that satisfy a triangular system with non-zero diagonal are equal |
| Elimination.UpperHoldsSatisfies | components/LinearSystemSolver.tsx:219-226 | on an exactly triangular matrix, satisfying the upper part is satisfying the system |
| IterativeSolver.UpdateFixed | components/LinearSystemSolver.tsx:279-295 | the update of x_i leaves x_i unchanged iff row i holds at x |
| IterativeSolver.JacobiFixedPoint | components/LinearSystemSolver.tsx:279-310 | a Jacobi sweep leaves x unchanged iff x solves the system |
| IterativeSolver.SeidelPrefixOfSolution | components/LinearSystemSolver.tsx:279-306 | starting at a solution, the Gauss-Seidel in-place updates reproduce it component by component |
| IterativeSolver.SeidelFixedPoint | components/LinearSystemSolver.tsx:279-306 | a Gauss-Seidel sweep leaves x unchanged iff x solves the system |
| IterativeSolver.SweepFixedPoint | components/LinearSystemSolver.tsx:279-310 | for either method, the solutions are exactly the fixed points of one sweep |
| IterativeSolver.MaxAbsDiff | components/LinearSystemSolver.tsx:314-317 | the error bounds every component's change and is attained by one of them (or is 0) |
| IterativeSolver.MaxAbsDiffZero | components/LinearSystemSolver.tsx:314-317 | the error is 0 iff the two iterates are equal |
| IterativeSolver.FirstSmallDiagonal | components/LinearSystemSolver.tsx:243-247 | the first row whose diagonal is below 1e-10, or none iff every diagonal is at least 1e-10 |
| IterativeSolver.SolveIterative | components/LinearSystemSolver.tsx:233-331 | rejects a blank or non-positive tolerance, then any diagonal below 1e-10, naming the row. Otherwise row 0 is the zero vector with error 0. Each later row is one sweep of the previous row with its max-difference error, and the run stops at the first error below tol or after 15 sweeps. It reports convergence iff the last error is below tol, and the last iterate is the answer either way |
| IterativeSolver.ZeroErrorSolves | components/LinearSystemSolver.tsx:314-323 | a sweep with error exactly 0 ends on an exact solution |
| MatrixCalculator.ClampSize | components/MatrixCalculator.tsx:69-70 | sizes are clamped to 1..10, and a missing or zero entry becomes 2 |
| MatrixCalculator.ClampSizeIdempotent | components/MatrixCalculator.tsx:85-86 | re-entering a clamped size leaves it unchanged |
| MatrixCalculator.Add | components/MatrixCalculator.tsx:140-146 | fails with a dimension mismatch iff the row or column counts differ; otherwise the result is element-wise a + b |
| MatrixCalculator.Subtract | components/MatrixCalculator.tsx:140-148 | fails iff the shapes differ; otherwise the result is element-wise a - b |
| MatrixCalculator.AddThenSubtract | components/MatrixCalculator.tsx:140-148 | subtracting b after adding b gives back a |
| MatrixCalculator.AddCommutes | components/MatrixCalculator.tsx:140-146 | a + b and b + a agree, errors included |
| MatrixCalculator.Product | components/MatrixCalculator.tsx:150-163 | the product of an r x m and an m x c matrix is r x c |
| MatrixCalculator.MultiplyLoops | components/MatrixCalculator.tsx:155-162 | the triple loop, accumulating over k in order, computes exactly the row-by-column product |
| MatrixCalculator.ProductIdentityLeft | components/MatrixCalculator.tsx:150-163 | the identity matrix times b is b |
| MatrixCalculator.Minor | components/MatrixCalculator.tsx:31 | dropping row 0 and column j of a square matrix leaves a square matrix one smaller |
| MatrixCalculator.MinorEntries | components/MatrixCalculator.tsx:31 | the minor's entries are the original's below row 0, skipping column j |
| MatrixCalculator.DetLog | components/MatrixCalculator.tsx:10-50 | a 1 x 1 matrix logs nothing. A 2 x 2 matrix logs exactly one step holding its determinant. Larger ones end with a step holding the determinant |
| MatrixCalculator.DetStepCount | components/MatrixCalculator.tsx:30-47 | the log's length follows the recurrence over n (one line for 2 x 2, n times the minors' count plus one above), and above 2 x 2 its last line is the cofactor expansion holding the determinant |
| MatrixCalculator.DetLogBlocks | components/MatrixCalculator.tsx:30-47 | above 2 x 2, the j-th block of StepCount(n - 1) lines is exactly the log of the minor for column j, so the minors' logs appear whole and in column order |
| MatrixCalculator.TwoByTwoIsExpansion | components/MatrixCalculator.tsx:17-24 | the 2 x 2 shortcut agrees with the cofactor expansion along row 0 |
| MatrixCalculator.DetLowerTriangular | components/MatrixCalculator.tsx:30-42 | the expansion of a lower-triangular matrix is the product of its diagonal |
| MatrixCalculator.DetIdentity | components/MatrixCalculator.tsx:30-42 | the identity has determinant 1 |
| MatrixCalculator.DetRowLinear | components/MatrixCalculator.tsx:30-42 | the determinant is linear in row 0 |
| MatrixCalculator.Calculate | components/MatrixCalculator.tsx:116-177 | each operation fails iff its shape check fails, with the matching error. Otherwise it returns the sum, difference or product with an empty determinant log. A determinant returns a 1 x 1 matrix holding the value, and its log; it does not read b |
| RootFinding.NextPoint | components/Exam2Solver.tsx:129-137 | bisection takes the midpoint. False position fails iff the denominator is below 1e-12 in magnitude, and otherwise takes the point x with x (f(u) - f(l)) = l f(u) - u f(l) |
| RootFinding.ChordBetween | components/Exam2Solver.tsx:136 | with a sign change, the false-position point lies strictly between the ends |
| RootFinding.NextPointBetween | components/Exam2Solver.tsx:129-137 | with a sign change, both methods' new point lies strictly inside the bracket |
| RootFinding.ShrinkKeepsSignChange | components/Exam2Solver.tsx:162-167 | the bracket update keeps f(lower) f(upper) < 0 when f(xm) is not 0 |
| RootFinding.BisectionHalves | components/Exam2Solver.tsx:162-167 | a bisection update halves the bracket's width |
| RootFinding.Bracket | components/Exam2Solver.tsx:126-169 | fails iff false position meets a denominator below 1e-12 in magnitude at one of the brackets the run reaches before its rows stop; bisection never fails. Otherwise it gives at most 15 - k rows, numbered k, k+1, ... Each row is a genuine step from its own sign-changing bracket, each next bracket is the update of the previous, and the run stops at the first row with \|f(xm)\| < tol or at the cap |
| RootFinding.BisectionWidths | components/Exam2Solver.tsx:126-169 | under bisection, row t's bracket is the first bracket's width over 2^t |
| RootFinding.SolveBracketing | components/Exam2Solver.tsx:102-220 | rejects a blank function or tolerance, a non-positive tolerance, blank bounds, and bounds without a sign change, in that order. After those checks it succeeds iff the bracketing run never meets a vanishing false-position denominator. Then the table is that run from (xl, xu), and the summary takes k and xm from the last row. Converged iff the last \|f(xm)\| < tol, and unconverged only after 15 rows |
| RootFinding.RelativeChange | components/Exam2Solver.tsx:191 | the relative change is \|next - x\| / \|next\|, undefined exactly when next is 0 |
| RootFinding.NewtonFrom | components/Exam2Solver.tsx:180-210 | fails, with ZeroDerivative, iff one of the points the run reaches before its rows stop has a derivative below 1e-12 in magnitude. Otherwise each row is x minus f/f' from its own x, each next x is the previous row's next, and the run stops at the first row whose relative change is below tol or at the cap |
| RootFinding.NewtonTangent | components/Exam2Solver.tsx:186 | each Newton point is the zero of the tangent line, and it equals x iff f(x) = 0 |
| RootFinding.NewtonConvergedClose | components/Exam2Solver.tsx:191-192 | a converged row moved by less than tol times \|next\| |
| RootFinding.SolveNewton | components/Exam2Solver.tsx:102-220 | rejects a blank function or tolerance, a non-positive tolerance, a blank x0, and a derivative below 1e-12 at x0. After the input checks it succeeds iff no point the run reaches has a derivative below 1e-12, and otherwise fails with ZeroDerivative. On success the table starts at x0 with rows 0, 1, ..., and the summary's value is the last row's next. Converged iff the last relative change is below tol and no earlier row converged; unconverged only after 15 rows |
| CurveFitting.NormalSystem | components/Exam2Solver.tsx:476-490 | A[i][j] is the sum of phi_i phi_j over the points and B[i] the sum of y phi_i |
| CurveFitting.NormalSymmetric | components/Exam2Solver.tsx:476-483 | the normal matrix is symmetric |
| CurveFitting.ClearColumnKeepsSolutions | components/Exam2Solver.tsx:499-503 | clearing the entries below a non-zero pivot keeps the normal system's solution set |
| CurveFitting.ColumnStep | components/Exam2Solver.tsx:494-503 | column i fails with SingularMatrix(i) iff the first row of largest magnitude in the column has an entry below 1e-12. Otherwise that row becomes row i, and every entry below the pivot in columns up to i is exactly 0 |
| CurveFitting.Triangulate | components/Exam2Solver.tsx:493-504 | the elimination from column i succeeds iff running ColumnStep column by column never fails, and then it returns that run's result. On failure it names a column c whose ColumnStep fails on the matrix that the earlier columns produced, so the first largest pivot there is below 1e-12. A result is exactly triangular with every pivot at least 1e-12 |
| CurveFitting.TriangulateKeepsSolutions | components/Exam2Solver.tsx:493-504 | the elimination keeps the normal system's solution set |
| CurveFitting.SolveNormal | components/Exam2Solver.tsx:492-511 | either the elimination's singular-pivot error, or coefficients that solve the normal equations exactly and are their only solution |
| CurveFitting.SolvedExactly | components/Exam2Solver.tsx:505-511 | back-substituted coefficients solve the original normal equations, and no other vector does |
| CurveFitting.NormalEquationsOrthogonal | components/Exam2Solver.tsx:476-490 | c solves the normal equations iff the fitted curve's residual is orthogonal to every basis function over the data, which is the least-squares condition |
| CurveFitting.Fit | components/Exam2Solver.tsx:409-511 | fewer than 2 points fail, and a blank custom basis fails. Otherwise the linear, quadratic and custom models return the singular-pivot error or the unique exact solution of their normal equations, whose residual is orthogonal to every basis function. The exponential model is ExpFit |
| CurveFitting.Cramer2 | components/Exam2Solver.tsx:559-561 | with a non-zero determinant, Cramer's rule solves the 2 x 2 system |
| CurveFitting.Cramer2Unique | components/Exam2Solver.tsx:559-561 | and that solution is the only one |
| CurveFitting.Logged | components/Exam2Solver.tsx:522-525 | the linearised data keep each abscissa and replace y by ln y, point for point |
| CurveFitting.LineSystem | components/Exam2Solver.tsx:553-557 | the result is a 2 x 3 augmented system; the body builds [[N, sum x \| sum Y], [sum x, sum x^2 \| sum x Y]] |
| CurveFitting.ExpFit | components/Exam2Solver.tsx:521-565 | fails iff there are fewer than 2 points, or some y <= 0, or the determinant is 0. Otherwise it reports the linearised system and (exp A, B) from Cramer's rule |
| CurveFitting.ExpFitAsWritten | components/Exam2Solver.tsx:521-565 | the same checks, but a zero determinant yields no finite coefficients instead of an error |
| CurveFitting.LineSystemDet | components/Exam2Solver.tsx:559 | the determinant depends only on the abscissae, and equals N sum x^2 - (sum x)^2 |
| CurveFitting.SpreadZero | components/Exam2Solver.tsx:559 | the spread N sum x^2 - (sum x)^2 is never negative, and is 0 iff all abscissae are equal |
| CurveFitting.ExpFitSingular | components/Exam2Solver.tsx:559-561 | the corrected fit is singular iff all abscissae are equal (with at least 2 points, all y positive) |
| CurveFitting.ExpFitSolves | components/Exam2Solver.tsx:556-564 | any solution of the linearised normal equations gives the reported coefficients |
| CurveFitting.ExpFitAgrees | components/Exam2Solver.tsx:521-565 | the corrected fit and the fit as written agree except on a zero determinant |
| CurveFitting.ExpFitAsWrittenDegenerate | components/Exam2Solver.tsx:559-561 | on two points at x = 1 the fit as written has no finite coefficients, and the corrected one is singular |
| Interpolation.Table | components/Exam2Solver.tsx:768-778 | the n x n table has the ordinates in column 0, follows the divided-difference recurrence above the anti-diagonal, and is 0 elsewhere |
| Interpolation.OmegaAtNode | components/Exam2Solver.tsx:784-788 | the running product of (x - x_j) vanishes at each of its own nodes |
| Interpolation.NewtonInterpolates | components/Exam2Solver.tsx:782-790 | the Newton form built from row i of the table passes through points i .. i+m-1 |
| Interpolation.LagrangeInterpolates | components/Exam2Solver.tsx:800-821 | the Lagrange sum at a data abscissa is that point's ordinate |
| Interpolation.FormsAgreeAtNodes | components/Exam2Solver.tsx:766-821 | both forms give the same estimate at every data abscissa |
| Interpolation.InterpolatesEverywhere | components/Exam2Solver.tsx:782-821 | with distinct abscissae, an estimate at any data abscissa returns that point's ordinate, in both forms |
| Interpolation.Interpolate | components/Exam2Solver.tsx:753-825 | fails with fewer than 2 points, a blank estimate, or a repeated abscissa, each iff its condition holds, and succeeds iff none holds. The Newton form returns the divided-difference table and the Newton polynomial built from its row 0, evaluated at the estimate. The Lagrange form returns the Lagrange sum at the estimate. At a data abscissa either form gives that point's ordinate |
| Interpolation.InterpolateAsWritten | components/Exam2Solver.tsx:753-825 | the same checks except the repeated abscissa, which yields no finite estimate |
| Interpolation.InterpolateAgrees | components/Exam2Solver.tsx:753-825 | the corrected and as-written interpolations agree except on a repeated abscissa |
| Interpolation.InterpolateAsWrittenDuplicate | components/Exam2Solver.tsx:766-821 | two points at x = 1 leave the code as written without a finite estimate, and the corrected one reports the duplicate |
| Differentiation.RelativeError | components/Exam3Solver.tsx:153 | the relative error is 100 \|exact - approx\| / \|exact\|, or 0 when the exact value is 0 |
| Differentiation.Differentiate | components/Exam3Solver.tsx:66-153 | blank fields fail, then h = 0 fails, each iff its condition holds. Otherwise it returns the chosen difference quotient, and as exact value the analytic derivative or 0 when none is available. The absolute error is \|exact - approx\|. The relative error is 0 when the exact value is 0, and otherwise 100 times the absolute error over \|exact\| |
| Differentiation.CentralIsMean | components/Exam3Solver.tsx:114-130 | the central first difference is the mean of the forward and backward ones |
| Differentiation.SecondIsDifferenceOfFirst | components/Exam3Solver.tsx:131-136 | the central second difference is the forward minus the backward first difference, over h |
| Differentiation.SecondOrderShifts | components/Exam3Solver.tsx:131-150 | the forward and backward second differences are the central one shifted by h and by -h |
| Differentiation.FirstOrderOnQuadratic | components/Exam3Solver.tsx:114-130 | on a quadratic the forward and backward quotients miss the derivative by c2 h and -c2 h, and the central one is exact |
| Differentiation.FirstOrderExactOnLines | components/Exam3Solver.tsx:114-130 | every first-order scheme recovers a line's slope |
| Differentiation.SecondOrderExactOnQuadratics | components/Exam3Solver.tsx:131-150 | every second-order scheme recovers a quadratic's second derivative |
| Integration.RuleIsWeighted | components/Exam3Solver.tsx:381-405 | each rule as the code sums it equals its factor h/2, h/3 or 3h/8 times the textbook weighted sum of all samples: weight 1 at both ends and, inside, 2 (trapezoid), 4 on odd and 2 on even indices (Simpson 1/3), 2 on multiples of 3 and 3 elsewhere (Simpson 3/8) |
| Integration.RuleOfConstant | components/Exam3Solver.tsx:381-405 | on constant samples c, each rule gives c h n whenever its segment count is allowed |
| Integration.CompositeOfConstant | components/Exam3Solver.tsx:370-405 | for f = c each composite rule returns c (b - a) |
| Integration.SimpsonIsRichardson | components/Exam3Solver.tsx:381-395 | Simpson 1/3 on 2m segments equals (4 T(2m) - T(m)) / 3, where T(k) is the trapezoid value on k segments |
| Integration.LevelIsTrapezoid | components/Exam3Solver.tsx:411-422 | Romberg level i is the composite trapezoid value on 2^i segments |
| Integration.RichardsonStep | components/Exam3Solver.tsx:444-450 | each entry satisfies R[i][j] (4^j - 1) = 4^j R[i][j-1] - R[i-1][j-1] |
| Integration.RombergTable | components/Exam3Solver.tsx:408-451 | the table is triangular with n rows and obeys the Richardson recurrence at every 1 <= j <= i < n |
| Integration.RombergColumns | components/Exam3Solver.tsx:411-450 | column 0 is the trapezoid on 2^i segments and column 1 is Simpson 1/3 on 2^i segments |
| Integration.RombergSecondColumn | components/Exam3Solver.tsx:444-450 | the first extrapolation of level i is Simpson 1/3 on 2^i segments |
| Integration.RombergOfConstant | components/Exam3Solver.tsx:408-451 | for f = c every table entry is c (b - a) |
| Integration.RombergConstant | components/Exam3Solver.tsx:408-451 | Romberg integration of a constant c answers c (b - a) for every n > 0 |
| Integration.Integrate | components/Exam3Solver.tsx:346-451 | blank fields, n <= 0, an odd n for Simpson 1/3 and an n not divisible by 3 for Simpson 3/8 fail in that order, each iff its condition holds, and the call succeeds iff none holds. Otherwise the rules return their composite value, and Romberg returns R[n-1][n-1] with its table |
| Integration.IntegrateConstant | components/Exam3Solver.tsx:346-451 | for f = c, every accepted request answers c (b - a) |
| Integration.RombergAnswer | components/Exam3Solver.tsx:451 | Romberg answers the last diagonal entry of the extrapolation table |
| OdeSolvers.Ceil | components/Exam4Solver.tsx:94 | the smallest integer not below r |
| OdeSolvers.CheckRange | components/Exam4Solver.tsx:80-95 | h <= 0, then x_end <= x0, then more than 100 estimated steps fail, each iff its condition holds |
| OdeSolvers.MarchReachesTarget | components/Exam4Solver.tsx:94-98 | when the estimate passes, the march stops at or past x_end - 1e-9, after at most the estimated number of steps |
| OdeSolvers.CeilCovers | components/Exam4Solver.tsx:94 | ceil((x_end - x0) / h) steps of h reach x_end |
| OdeSolvers.Rk4Solve | components/Exam4Solver.tsx:63-123 | the input checks fail in order, each iff its condition holds, and the call succeeds iff all pass. Otherwise the table is the complete run: at most 100 rows, row i numbered i and starting where row i-1 ended (row 0 at (x0, y0)), each row one RK4 step, every row started below x_end - 1e-9, and the loop condition fails after the last row |
| OdeSolvers.Rk4TraceUnique | components/Exam4Solver.tsx:97-121 | two complete tables for the same inputs are equal, so the table is determined by the inputs |
| OdeSolvers.Rk4Grid | components/Exam4Solver.tsx:104-120 | row t starts at x0 + t h |
| OdeSolvers.Rk4ReachesTarget | components/Exam4Solver.tsx:94-121 | an accepted run ends at or past x_end - 1e-9 after at most ceil((x_end - x0) / h) rows |
| OdeSolvers.Rk4ExactStep | components/Exam4Solver.tsx:99-105 | for f quadratic in x alone, one step adds exactly the integral of f over the step |
| OdeSolvers.Rk4ExactTrace | components/Exam4Solver.tsx:97-121 | for such f, every row's next y is the exact solution at its next x |
| OdeSolvers.Rk4OnLinear | components/Exam4Solver.tsx:99-105 | on y' = lambda y one step multiplies y by 1 + q + q^2/2 + q^3/6 + q^4/24, where q = lambda h |
| OdeSolvers.SystemStep | components/Exam4Solver.tsx:277-298 | a system row records its own x, y, z and iteration, and advances x by h |
| OdeSolvers.VelocityStages | components/Exam4Solver.tsx:262-290 | with y' = z, each y-stage equals the z of the state that stage evaluates |
| OdeSolvers.SystemPositionUpdate | components/Exam4Solver.tsx:277-296 | hence y advances by h z plus h^2 / 6 times the sum of the first three z-stages |
| OdeSolvers.ConstantAcceleration | components/Exam4Solver.tsx:277-297 | under y'' = g one step is exact: z gains g h and y gains z h + g h^2 / 2 |
| OdeSolvers.SystemDecouples | components/Exam4Solver.tsx:277-297 | when the acceleration depends on x alone, z advances exactly as a first-order RK4 step does |
| OdeSolvers.SystemSolve | components/Exam4Solver.tsx:231-316 | the same ordered input checks with z0 added, each iff its condition holds, and the call succeeds iff all pass. Otherwise the table is the complete chained run from (x0, y0, z0) of at most 100 rows |
| OdeSolvers.SystemGrid | components/Exam4Solver.tsx:298-313 | row t of a system run starts at x0 + t h, and the run ends at x0 + (rows) h |
| OdeSolvers.SystemReachesTarget | components/Exam4Solver.tsx:270-314 | an accepted system run ends at or past x_end - 1e-9 after at most ceil((x_end - x0) / h) rows |
| OdeSolvers.SystemExactTrace | components/Exam4Solver.tsx:274-314 | under y'' = g every row's next state lies on the exact motion y0 + z0 d + g d^2 / 2, z0 + g d |
| OdeSolvers.SystemExactRow | components/Exam4Solver.tsx:277-298 | under y'' = g, a step from a point on the exact motion lands on it again |

## Left out

- Parsing and display:
  - Text-to-number parsing, NaN filtering, and the non-numeric input errors are left out.
    Parsed inputs are `Option` values, and blank fields are `None`.
  - All display formatting is left out: `formatNumber`, `toFixed` rounding of results,
    formula and sample strings, polynomial and equation strings, and summation-table labels.
  - Adding, subtracting, multiplying and the determinant therefore return unrounded values.
  - A determinant step in the log records only its kind and its value, not its text.
- Expressions:
  - The expression library's parse, evaluate and symbolic derivative are functions passed
    in as parameters.
  - A failed symbolic derivative in differentiation is `None`.
  - Math.log and Math.exp in the exponential fit are parameters `ln` and `exp`, about
    which nothing is assumed.
- Floating point is left out. All arithmetic is exact, so results that the app shows as
  NaN or Infinity become errors or `None`.
- UI:
  - React state, rendering, graphs, point-array resizing and navigation are left out.
  - The "did not converge" warning of the iterative solver is the `converged = false`
    flag of a successful result.
- DirectSolver.SolveDirect: its exactness promise holds only when the reduced matrix is
  exactly triangular (identity for Gauss-Jordan). The code skips rows whose factor is at
  most 1e-10, which can leave small non-zero entries below the diagonal. For such rows
  the model proves only the bound in `EliminateBelow`.
- Interpolation.Interpolate: the Newton and Lagrange forms are each stated exactly, but
  they are proved to agree only at the data abscissae, not at every x.
- RootFinding.SolveNewton: the derivative is a supplied function. A symbolic derivative
  that the expression library cannot compute is not modelled.
- Interpolation.FormsAgreeAtNodes: see Interpolation.Interpolate above; the uniqueness of
  the interpolating polynomial is not part of this model.
- MatrixCalculator.DetLog: each log entry records only its kind and the value it shows;
  the rendered expansion string is left out.
- CurveFitting.Fit: custom basis functions are given as a sequence of functions. Splitting
  the comma-separated text, and the `'1'` term in the equation string, are left out.

## Findings

| source | as written | input that shows it | evidently intended | confidence | as-written member | corrected member |
|---|---|---|---|---|---|---|
| components/Exam2Solver.tsx:559-561 | the exponential fit divides by det = N sum x^2 - (sum x)^2 without a check | two points with the same x, e.g. (1, 1) and (1, 2): det = 0, shown by CurveFitting.ExpFitAsWrittenDegenerate | report a singular system, as the polynomial models do for a pivot below 1e-12 | not executed; det = 0 iff all x are equal is proved | CurveFitting.ExpFitAsWritten | CurveFitting.ExpFit |
| components/Exam2Solver.tsx:766-821 | divided differences and Lagrange factors divide by x_j - x_i with no check for repeated abscissae | points (1, 1) and (1, 2): division by 0, shown by Interpolation.InterpolateAsWrittenDuplicate | reject the data with a duplicate-abscissa error | not executed | Interpolation.InterpolateAsWritten | Interpolation.Interpolate |
