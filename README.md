# Numerical methods labs: linear solvers and root finders, in Dafny

This project models the numerical core of two labs over Dafny's exact `real`
numbers.

- **Gaussian elimination with partial pivoting** (`gaussian_elimination`).
  - It builds the working array [matrix | vector].
  - For each column it picks the row with the largest absolute entry, swaps that row into place, and clears the entries below the pivot, all in place.
  - It then fills the solution by back-substitution, last entry first.
  - The model proves three results:
    - the returned vector solves matrix·x = vector;
    - it is the only solution;
    - the solver fails exactly when the matrix is singular.
- **Gauss–Seidel on the normal equations** (`seidel`).
  - It forms AᵀA and Aᵀb and starts from zero.
  - It sweeps x[0], x[1], … in place: each new entry uses the new entries before it and the old entries after it.
  - It stops when the change between two sweeps is below `tol`.
  - The model states the per-entry sweep equation. It proves that a sweep leaves x unchanged exactly when x solves the normal equations, that is, exactly when the residual A·x − b is orthogonal to every column of A.
- **The root finders of class `Function`**: Newton, chord, secant, finite-difference Newton, Steffensen and simple iteration, plus `find_min_fun`, the sampled minimum.
  - Each finder records (x0, 0) and then the numbered iterates.
  - It stops at the first update closer than `eps`, without recording that update.
  - The model pins down each trace exactly. That covers the start rule, the numbering, the update formula and the stopping rule. A lemma proves that these conditions determine the outcome.

Layout:

- `wrappers.dfy`: `Option` and `Result`.
- `reals.dfy`: `Abs`.
- `matrices.dfy`: vectors, matrices and the dot product, plus row operations and the null-vector facts that elimination relies on.
- `gauss.dfy`: the elimination solver, on a 2-D array updated in place.
- `seidel.dfy`: the sweep, on an array updated in place, and the outer loop.
- `root_finding.dfy`: the `Function` class.

## Model

| member | source | states |
|---|---|---|
| Gauss.Augment | Labs/Labs_1.py:7 | a fresh n×(n+1) array; row r is row r of the matrix followed by vector[r], so the caller's matrix is a value that stays as it was |
| Gauss.PivotRow | Labs/Labs_1.py:10 | the pivot row p lies in i..n−1; \|aug[p,i]\| ≥ \|aug[k,i]\| for every k in i..n−1; rows before p are strictly smaller, so ties keep the first row, as Python's `max` does |
| Gauss.SwapRows | Labs/Labs_1.py:11 | rows i and p are exchanged and every other entry is unchanged; the new rows are `Swapped(old rows, i, p)`; swapping a row with itself changes nothing |
| Gauss.SubtractRow | Labs/Labs_1.py:15 | row j becomes row j minus factor·row i on columns i..n, with columns before i and all other rows unchanged |
| Gauss.EliminateBelow | Labs/Labs_1.py:13-15 | needs a nonzero pivot; the new rows are `Eliminated(old rows, i)`: every row j > i minus aug[j,i]/aug[i,i] times row i, from column i on |
| Matrices.EliminationFrame | Labs/Labs_1.py:13-15 | clearing column i keeps rows 0..i and columns before i unchanged, and leaves column i zero below the pivot |
| Matrices.SwapKeepsKernel | Labs/Labs_1.py:11 | a row swap keeps the set of null vectors, so the solution set is kept |
| Matrices.EliminationKeepsKernel | Labs/Labs_1.py:13-15 | clearing column i, when row i is zero before column i, keeps the set of null vectors |
| Matrices.AugmentedSolves | Labs/Labs_1.py:7 | x solves A·x = b exactly when (x, −1) is a null vector of [A \| b] |
| Matrices.AugmentedKernel | Labs/Labs_1.py:7 | y is a null vector of A exactly when (y, 0) is a null vector of [A \| b] |
| Matrices.UniqueSolutionNonsingular | Labs/Labs_1.py:5-22 | a system with exactly one solution has a nonsingular matrix |
| Gauss.PivotStep | Labs/Labs_1.py:9-15 | one column step with a nonzero pivot keeps the loop invariant for one more column. The invariant: the first i columns are zero below a nonzero diagonal, and the array has the same null vectors as [matrix \| vector] |
| Gauss.ZeroPivotStep | Labs/Labs_1.py:10-14 | if the largest pivot candidate in column i is zero, the input matrix is singular |
| Gauss.SingularWitness | Labs/Labs_1.py:13-20 | a zero pivot column yields a null vector with a 1 at the pivot position |
| Gauss.SingularFromZeroColumn | Labs/Labs_1.py:13-20 | a zero pivot column after i reduced columns makes the input matrix singular |
| Gauss.BackSubstitute | Labs/Labs_1.py:17-20 | for every i, aug[i,i]·x[i] + Σ_{k>i} aug[i,k]·x[k] = aug[i,n], written as the dot product of row i from the diagonal on with x from i on, given nonzero diagonal entries |
| Gauss.BackSolvedStep | Labs/Labs_1.py:19-20 | setting x[i] to the back-substituted value solves row i and keeps rows i+1..n−1 solved |
| Gauss.BackSubstitutionSolves | Labs/Labs_1.py:17-20 | an upper-triangular array whose rows meet the back-substitution equations has (x, −1) as a null vector |
| Gauss.TriangularUnique | Labs/Labs_1.py:17-20 | an upper-triangular system with nonzero diagonal has at most one solution |
| Gauss.SolvedFromTriangular | Labs/Labs_1.py:17-22 | the back-substituted x solves matrix·x = vector and is its only solution, so the matrix is nonsingular |
| Gauss.GaussianElimination | Labs/Labs_1.py:5-22 | Ok(x): x solves matrix·x = vector and every other solution equals x. Err(SingularMatrix): the matrix is singular. It returns Ok exactly when the matrix is nonsingular |
| Seidel.GramSymmetric | Labs/Labs_1.py:26 | AᵀA is symmetric |
| Seidel.GramDiagonal | Labs/Labs_1.py:26 | a diagonal entry of AᵀA is ≥ 0, and it is zero exactly when that column of A is all zero |
| Seidel.GramApply | Labs/Labs_1.py:26-27 | row i of (AᵀA)·x equals column i of A dotted with A·x |
| Seidel.NormalEquations | Labs/Labs_1.py:26-27 | x solves AᵀA·x = Aᵀb exactly when the residual A·x − b is orthogonal to every column of A |
| Seidel.ExactSolutionSolvesNormal | Labs/Labs_1.py:26-27 | an exact solution of A·x = b also solves the normal equations |
| Seidel.LeastSquaresFixedPoint | Labs/Labs_1.py:26-32 | a sweep on the system `seidel` builds leaves x unchanged exactly when A·x − b is orthogonal to every column of A |
| Seidel.SweepPrefixFrame | Labs/Labs_1.py:31-32 | after k updates of a sweep, entries 0..k−1 hold their new values and entries k.. still hold the old ones |
| Seidel.SweepEquation | Labs/Labs_1.py:32 | every new entry is x[i] = (b[i] − Σ_{k<i} a[i,k]·x_new[k] − Σ_{k>i} a[i,k]·x_old[k]) / a[i,i] |
| Seidel.UpdateFixed | Labs/Labs_1.py:32 | the update leaves entry i where it is exactly when row i of a·x = b holds |
| Seidel.SweepFixedPoint | Labs/Labs_1.py:30-32 | a sweep leaves x unchanged exactly when x solves the normal equations a·x = b |
| Seidel.NormTest | Labs/Labs_1.py:33 | for any s ≥ 0 with s² = ‖x − x_old‖², s < tol exactly when the squared test ‖x − x_old‖² < tol² with tol > 0 holds |
| Seidel.SolutionSettles | Labs/Labs_1.py:29-34 | once an iterate solves the normal equations, the next sweep repeats it and meets the stopping test for any tol > 0 |
| Seidel.SweepInPlace | Labs/Labs_1.py:31-32 | the in-place sweep over x gives `Sweep(a, b, x_old)` |
| Seidel.Seidel | Labs/Labs_1.py:25-35 | a = AᵀA and b = Aᵀ·vector_b, starting from zero. It fails with ZeroDiagonal exactly when some a[i,i] is zero. Ok(x): x is the iterate after the first sweep k ≤ maxSweeps whose change passes the test. NonConvergence: no sweep up to maxSweeps passes it |
| RootFinding.Function.constructor | Labs/Labs_2.py:13-20 | stores the interval, the function with its derivatives, and eps (default 0.0000001) |
| RootFinding.Function.Iterate | Labs/Labs_2.py:32-38 | the trace starts with (x0, 0) and is numbered 0, 1, 2, …; each entry is the update of the one before it and at least eps from it. The run ends in one of three ways: the first update within eps, not recorded; a zero denominator; or maxIter recorded steps |
| RootFinding.Function.RecordedAgree | Labs/Labs_2.py:32-38 | two traces from the same start under the same rule agree wherever both are defined |
| RootFinding.Function.TraceDetermined | Labs/Labs_2.py:32-38 | any two outcomes that meet the trace and stopping conditions are equal, so those conditions fix the result |
| RootFinding.Function.FixedStartStops | Labs/Labs_2.py:33-35 | a start that the rule maps to itself ends at once with trace [(x0, 0)] (eps > 0) |
| RootFinding.Function.NewtonFixesRoot | Labs/Labs_2.py:33 | a root with f′ ≠ 0 is kept by Newton's update x − f(x)/f′(x) |
| RootFinding.Function.NewtonMethod | Labs/Labs_2.py:28-39 | starts at a when f(a)·f″(a) > 0 and at b otherwise, then iterates x1 = x0 − f(x0)/f′(x0) |
| RootFinding.Function.ChordMethod | Labs/Labs_2.py:41-52 | (x0, ab) = (a, b) when f(b)·f″(b) > 0 and (b, a) otherwise; ab stays fixed in x1 = x0 − f(x0)(ab − x0)/(f(ab) − f(x0)) |
| RootFinding.Function.FiniteDifferenceNewtonMethod | Labs/Labs_2.py:69-83 | h = (b − a)/step, default step 1000, and x1 = x0 − f(x0)·h/(f(x0+h) − f(x0)) from a; step = 0 is a division by zero |
| RootFinding.Function.SteffensenMethod | Labs/Labs_2.py:85-96 | iterates x1 = x0 − f(x0)²/(f(x0+f(x0)) − f(x0)) from a, with the update at a root corrected (see Findings) |
| RootFinding.Function.SteffensenFixesExactlyRoots | Labs/Labs_2.py:90 | the corrected update leaves x where it is exactly when f(x) = 0; every other point is moved or has a zero denominator |
| RootFinding.Function.SteffensenTracesAgree | Labs/Labs_2.py:85-96 | with eps > 0, a trace under the corrected update and a trace under the update as written, from the same start, agree wherever both are defined |
| RootFinding.Function.SteffensenRootIsLast | Labs/Labs_2.py:89-94 | with eps > 0, in a trace under either Steffensen update, an entry that has a successor is not a root |
| RootFinding.Function.SteffensenCorrectionOnlyAtRoot | Labs/Labs_2.py:85-96 | with eps > 0, the corrected and the as-written runs from the same start and bound record the same trace. Their statuses are equal, except when the last iterate is a root and a step is still allowed: then the as-written run ends in DivisionByZero and the corrected run in Converged |
| RootFinding.Function.SteffensenAsWrittenRunFails | Labs/Labs_2.py:85-96 | as written, Steffensen's method started at a root ends at once on a zero denominator, with trace [(x0, 0)] |
| RootFinding.Function.NewtonFailsAtMultipleRoot | Labs/Labs_2.py:33 | Newton's update divides by zero at a root where f′ is also zero |
| RootFinding.Function.ChordFixesRoot | Labs/Labs_2.py:46 | at a root, the chord update keeps x when f(ab) ≠ 0 and divides by zero when f(ab) = 0 |
| RootFinding.Function.FiniteDifferenceFixesRoot | Labs/Labs_2.py:75-77 | at a root, the finite-difference update keeps x when f(x + h) ≠ 0 and divides by zero when f(x + h) = 0 |
| RootFinding.Function.SampledMin | Labs/Labs_2.py:114-120 | the result is ≤ g(a) and ≤ g at every sample, and equals g at a or at some sample |
| RootFinding.Function.FindMinFun | Labs/Labs_2.py:114-120 | min_fx is the sampled minimum and equals g(point). The point is a when g(a) is minimal; otherwise it is the first sample reaching the minimum, because the comparison is strict |
| RootFinding.Function.SimpleIterationMethod | Labs/Labs_2.py:98-112 | with m the sampled minimum of f′: if m > 0, it iterates x1 = x0 − f(x0)/m from a; otherwise the trace is just [(a, 0)] |
| RootFinding.Function.SimpleIterationNeverDivides | Labs/Labs_2.py:106 | simple iteration never ends on a zero denominator |
| RootFinding.Function.SecantMethod | Labs/Labs_2.py:54-67 | the trace is (a, 0), (b, 0), then entries numbered 1, 2, …. Each is x2 = x1 − f(x1)(x1 − x0)/(f(x1) − f(x0)) from the two before it. The stop test compares x2 with x1 |
| RootFinding.Function.SecantAgree | Labs/Labs_2.py:59-66 | two secant traces agree wherever both are defined |
| RootFinding.Function.SecantDetermined | Labs/Labs_2.py:59-66 | the secant trace and stopping conditions fix the outcome |
| RootFinding.Function.SteffensenAsWrittenFailsAtRoot | Labs/Labs_2.py:90 | as written, Steffensen's update divides by zero at every root |
| RootFinding.Function.SteffensenStopsAtRoot | Labs/Labs_2.py:85-96 | with the corrected update, Steffensen's method started at a root ends at once with [(x0, 0)] |

## Left out

- The tkinter windows, entry parsing, labels and buttons (Labs/Labs_1.py:38-159, Labs/Labs_2.py:122-248). They are user interface only.
- Sympy: simplifying and differentiating the typed formula (Labs/Labs_2.py:16-26).
  - The constructor takes f, f′ and f″ as three functions on the reals.
  - Nothing relates them to each other: the model does not assume that f′ is the derivative of f.
- Matplotlib plotting and result formatting (`plot_graph`, `format_results`). The error estimates shown in the windows are left out too. These are presentation.
- Floating-point rounding, overflow, `nan` and `inf`. Every number is an exact real.
- Any claim that the loops converge, or how fast. The model makes no such claim.
- Gauss.GaussianElimination: on a zero pivot the source divides by zero and returns `inf`/`nan` entries. The model stops and returns `Err(SingularMatrix)` at the first zero pivot, and proves that this happens exactly for singular matrices.
- Seidel.Seidel:
  - The source's `while True` is bounded by `maxSweeps`; the bound ends the run with `NonConvergence`.
  - A zero diagonal entry of AᵀA, where the source would produce `nan`, ends the run with `ZeroDiagonal` before any sweep.
  - The number of columns of A is passed as `columns`, because a sequence of rows cannot carry it when A has no rows.
  - The norm test ‖x − x_old‖ < tol is stated on squares; `Seidel.NormTest` connects the two forms.
- Seidel.Gram and Seidel.NormalRhs: numpy's matrix products AᵀA and Aᵀb are specification functions, not loops, as in the source.
- RootFinding.Function.NewtonMethod, ChordMethod, SecantMethod, FiniteDifferenceNewtonMethod, SteffensenMethod and SimpleIterationMethod share three departures from the source:
  - Each takes `maxIter` and stops with `NoConvergence` after that many update steps. The source's `while True` has no bound.
  - A zero denominator ends the run with `DivisionByZero` and the trace recorded so far. In the source, the outcome depends on the values `lambdify` produces (Labs/Labs_2.py:17-19). When f returns plain Python floats, as for a polynomial such as x − 1, the division raises `ZeroDivisionError`. When f returns numpy values, as for the default `exp(x) - 2*(x-2)**2` (Labs/Labs_2.py:132), the division gives `inf` or `nan` with a warning, the stop test `abs(x1 - x0) < eps` is then false, and the loop never stops.
  - The five one-point finders share one loop, `Iterate`, parameterised by the update rule.
- RootFinding.Function.SimpleIterationMethod: when the sampled minimum of f′ is ≤ 0, the source returns [(a, 0)]. The model returns the same trace, tagged `NotApplicable`.
- RootFinding.Function.FindMinFun: `np.linspace(a, b, n)` is not modelled. The sample points are a parameter sequence, and the source's `n = 1000` is not fixed.

## Findings

| source | as written | input that shows it | evidently intended | confidence | as-written member | corrected member |
|---|---|---|---|---|---|---|
| Labs/Labs_2.py:90 | x1 = x0 − f(x0)²/(f(x0 + f(x0)) − f(x0)) | f(x) = x − 1 with a = 1: f(a) = 0, so the denominator is f(1) − f(1) = 0 and the first step divides by zero | an iterate that is already a root ends the run as converged. The other one-point updates divide by zero only at some roots: Newton's where f′ = 0, the chord's where f(ab) = 0, the finite difference's where f(x + h) = 0. Steffensen's fails at every root, simple roots included | medium; not executed | RootFinding.Function.SteffensenAsWrittenRunFails | RootFinding.Function.SteffensenStopsAtRoot |
