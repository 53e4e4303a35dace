/**
 * The Gauss–Seidel iteration that `seidel` runs on the normal equations
 * AᵀA·x = Aᵀb.  A sweep overwrites x[0], x[1], … in place; entry i uses the
 * entries before it from this sweep and the entries after it from the
 * previous one.  The source loops until the change between two sweeps is
 * below `tol`; here the number of sweeps is bounded by `maxSweeps`.
 */
module Seidel {
  import opened Wrappers
  import opened Matrices

  datatype SeidelError =
    | ZeroDiagonal    // some aᵢᵢ of AᵀA is zero: the update divides by it
    | NonConvergence  // `maxSweeps` sweeps without the change falling below tol

  /** Column j of a matrix whose rows all have more than j entries. */
  function Column(A: Matrix, j: nat): (col: Vector)
    requires forall r :: 0 <= r < |A| ==> j < |A[r]|
    ensures |col| == |A|
    ensures forall r :: 0 <= r < |A| ==> col[r] == A[r][j]
  {
    seq(|A|, r requires 0 <= r < |A| => A[r][j])
  }

  /** AᵀA for a matrix with `n` columns: entry (i, j) is column i dotted with column j. */
  function Gram(A: Matrix, n: nat): (g: Matrix)
    requires IsMatrix(A, |A|, n)
    ensures IsSquare(g, n)
  {
    seq(n, i requires 0 <= i < n => seq(n, j requires 0 <= j < n => Dot(Column(A, i), Column(A, j))))
  }

  /** Aᵀb: entry i is column i of A dotted with b. */
  function NormalRhs(A: Matrix, b: Vector, n: nat): (rhs: Vector)
    requires IsMatrix(A, |b|, n)
    ensures |rhs| == n
  {
    seq(n, i requires 0 <= i < n => Dot(Column(A, i), b))
  }

  /** AᵀA is symmetric. */
  lemma GramSymmetric(A: Matrix, n: nat, i: nat, j: nat)
    requires IsMatrix(A, |A|, n) && i < n && j < n
    ensures Gram(A, n)[i][j] == Gram(A, n)[j][i]
  {
    DotSymmetric(Column(A, i), Column(A, j));
  }

  /** A diagonal entry of AᵀA is never negative, and is zero exactly when that column of A is zero. */
  lemma GramDiagonal(A: Matrix, n: nat, i: nat)
    requires IsMatrix(A, |A|, n) && i < n
    ensures Gram(A, n)[i][i] >= 0.0
    ensures Gram(A, n)[i][i] == 0.0 <==> forall r :: 0 <= r < |A| ==> A[r][i] == 0.0
  {
    var col := Column(A, i);
    DotSelf(col);
    if Gram(A, n)[i][i] == 0.0 {
      forall r | 0 <= r < |A|
        ensures A[r][i] == 0.0
      {
        assert col[r] == A[r][i];
      }
    }
  }

  /** Column j of A is column j of A without its last row, followed by the last row's entry. */
  lemma ColumnLast(A: Matrix, n: nat, j: nat)
    requires IsMatrix(A, |A|, n) && |A| > 0 && j < n
    ensures Column(A, j) == Column(A[..|A| - 1], j) + [A[|A| - 1][j]]
  {
  }

  /** Row i of AᵀA for A with one more row: the old row i plus row[i] times the new row. */
  lemma GramLastRow(A: Matrix, n: nat, i: nat)
    requires IsMatrix(A, |A|, n) && |A| > 0 && i < n
    ensures forall j :: 0 <= j < n ==>
      Gram(A, n)[i][j] == Gram(A[..|A| - 1], n)[i][j] + Scaled(A[|A| - 1][i], A[|A| - 1])[j]
  {
    var A', row := A[..|A| - 1], A[|A| - 1];
    forall j | 0 <= j < n
      ensures Gram(A, n)[i][j] == Gram(A', n)[i][j] + Scaled(row[i], row)[j]
    {
      ColumnLast(A, n, i);
      ColumnLast(A, n, j);
      DotAppend(Column(A', i), Column(A', j), row[i], row[j]);
    }
  }

  /** Row i of (AᵀA)·x equals column i of A dotted with A·x. */
  lemma {:induction false} GramApply(A: Matrix, n: nat, i: nat, x: Vector)
    requires IsMatrix(A, |A|, n) && i < n && |x| == n
    ensures Dot(Gram(A, n)[i], x) == Dot(Column(A, i), Apply(A, x))
  {
    if |A| == 0 {
      DotZeroTerms(Gram(A, n)[i], x);
    } else {
      var A', row := A[..|A| - 1], A[|A| - 1];
      GramApply(A', n, i, x);
      GramLastRow(A, n, i);
      DotAddLeft(Gram(A', n)[i], Scaled(row[i], row), Gram(A, n)[i], x);
      DotScaled(row[i], row, x);
      ColumnLast(A, n, i);
      assert Apply(A, x) == Apply(A', x) + [Dot(row, x)];
      DotAppend(Column(A', i), Apply(A', x), row[i], Dot(row, x));
    }
  }

  /**
   * x solves the normal equations AᵀA·x = Aᵀb exactly when the residual
   * A·x − b is orthogonal to every column of A (x is a least-squares solution).
   */
  lemma NormalEquations(A: Matrix, b: Vector, n: nat, x: Vector)
    requires IsMatrix(A, |b|, n) && |x| == n
    ensures Solves(Gram(A, n), NormalRhs(A, b, n), x) <==>
      forall i :: 0 <= i < n ==> Dot(Column(A, i), Difference(Apply(A, x), b)) == 0.0
  {
    var ax := Apply(A, x);
    var res := Difference(ax, b);
    forall i | 0 <= i < n
      ensures Dot(Gram(A, n)[i], x) - NormalRhs(A, b, n)[i] == Dot(Column(A, i), res)
    {
      GramApply(A, n, i, x);
      DotAddRight(Column(A, i), res, b, ax);
    }
  }

  /** An exact solution of A·x = b also solves the normal equations. */
  lemma ExactSolutionSolvesNormal(A: Matrix, b: Vector, n: nat, x: Vector)
    requires IsMatrix(A, |b|, n) && |x| == n && Solves(A, b, x)
    ensures Solves(Gram(A, n), NormalRhs(A, b, n), x)
  {
    NormalEquations(A, b, n, x);
    var res := Difference(Apply(A, x), b);
    forall i | 0 <= i < n
      ensures Dot(Column(A, i), res) == 0.0
    {
      DotZeroTerms(Column(A, i), res);
    }
  }

  /** The system a·x = b can be swept: a is square and its diagonal has no zero. */
  predicate SweepReady(a: Matrix, b: Vector) {
    IsSquare(a, |b|) && forall i :: 0 <= i < |b| ==> a[i][i] != 0.0
  }

  /**
   * The new value of entry i: the new entries before i are taken from `y`,
   * the old entries after i from `xOld`.
   */
  function Update(a: Matrix, b: Vector, y: Vector, xOld: Vector, i: nat): real
    requires SweepReady(a, b) && |y| == |b| && |xOld| == |b| && i < |b|
  {
    (b[i] - Dot(a[i][..i], y[..i]) - Dot(a[i][i + 1..], xOld[i + 1..])) / a[i][i]
  }

  /** The vector after the first k entries of a sweep starting from `xOld` have been overwritten. */
  function SweepPrefix(a: Matrix, b: Vector, xOld: Vector, k: nat): (y: Vector)
    requires SweepReady(a, b) && |xOld| == |b| && k <= |b|
    ensures |y| == |b|
  {
    if k == 0 then xOld
    else
      var y := SweepPrefix(a, b, xOld, k - 1);
      y[k - 1 := Update(a, b, y, xOld, k - 1)]
  }

  /** One full sweep starting from `xOld`. */
  function Sweep(a: Matrix, b: Vector, xOld: Vector): Vector
    requires SweepReady(a, b) && |xOld| == |b|
  {
    SweepPrefix(a, b, xOld, |b|)
  }

  /** The iterate after k sweeps from the zero vector. */
  function AfterSweeps(a: Matrix, b: Vector, k: nat): (x: Vector)
    requires SweepReady(a, b)
    ensures |x| == |b|
  {
    if k == 0 then Zeros(|b|) else Sweep(a, b, AfterSweeps(a, b, k - 1))
  }

  /** x − y entry by entry. */
  function Difference(x: Vector, y: Vector): (d: Vector)
    requires |x| == |y|
    ensures |d| == |x|
    ensures forall c :: 0 <= c < |x| ==> d[c] == x[c] - y[c]
  {
    seq(|x|, c requires 0 <= c < |x| => x[c] - y[c])
  }

  /**
   * The stopping test ‖x − y‖ < tol, with the Euclidean norm squared:
   * ‖d‖² = d·d < tol², which for a norm (never negative) needs tol > 0.
   */
  predicate Close(x: Vector, y: Vector, tol: real)
    requires |x| == |y|
  {
    var d := Difference(x, y);
    0.0 < tol && Dot(d, d) < Mul(tol, tol)
  }

  /** Sweep k (k ≥ 1) passes the stopping test against the iterate before it. */
  predicate Settled(a: Matrix, b: Vector, k: nat, tol: real)
    requires SweepReady(a, b) && k >= 1
  {
    Close(AfterSweeps(a, b, k), AfterSweeps(a, b, k - 1), tol)
  }

  /** The squared-norm test agrees with comparing the norm itself (any s ≥ 0 with s² = d·d) against tol. */
  lemma NormTest(x: Vector, y: Vector, s: real, tol: real)
    requires |x| == |y|
    requires s >= 0.0 && Mul(s, s) == Dot(Difference(x, y), Difference(x, y))
    ensures s < tol <==> Close(x, y, tol)
  {
    if 0.0 <= tol {
      MulSquareLess(s, tol);
    }
  }

  /**
   * During a sweep the first k entries hold their new values and the others
   * still hold the old ones.
   */
  lemma {:induction false} SweepPrefixFrame(a: Matrix, b: Vector, xOld: Vector, k: nat)
    requires SweepReady(a, b) && |xOld| == |b| && k <= |b|
    ensures forall j :: k <= j < |b| ==> SweepPrefix(a, b, xOld, k)[j] == xOld[j]
    ensures forall j :: 0 <= j < k ==>
      SweepPrefix(a, b, xOld, k)[j] == Update(a, b, SweepPrefix(a, b, xOld, j), xOld, j)
  {
    if k > 0 {
      SweepPrefixFrame(a, b, xOld, k - 1);
    }
  }

  /** The new value of entry i depends only on the entries of `y` before i. */
  lemma UpdateUsesPrefix(a: Matrix, b: Vector, y: Vector, z: Vector, xOld: Vector, i: nat)
    requires SweepReady(a, b) && |y| == |b| && |z| == |b| && |xOld| == |b| && i < |b|
    requires y[..i] == z[..i]
    ensures Update(a, b, y, xOld, i) == Update(a, b, z, xOld, i)
  {
  }

  /**
   * The per-entry equation of one sweep: every new entry i is b[i] minus the
   * new entries before i and the old entries after i (each weighted by row i),
   * divided by a[i][i].
   */
  lemma SweepEquation(a: Matrix, b: Vector, xOld: Vector)
    requires SweepReady(a, b) && |xOld| == |b|
    ensures forall i :: 0 <= i < |b| ==> Sweep(a, b, xOld)[i] == Update(a, b, Sweep(a, b, xOld), xOld, i)
  {
    var x := Sweep(a, b, xOld);
    SweepPrefixFrame(a, b, xOld, |b|);
    forall i | 0 <= i < |b|
      ensures x[i] == Update(a, b, x, xOld, i)
    {
      var y := SweepPrefix(a, b, xOld, i);
      SweepPrefixFrame(a, b, xOld, i);
      assert y[..i] == x[..i];
      UpdateUsesPrefix(a, b, y, x, xOld, i);
    }
  }

  /** Dividing a product by its nonzero factor. */
  lemma MulDivide(p: real, c: real)
    requires p != 0.0
    ensures Mul(p, c) / p == c
  {
  }

  /** Row i of a·x, split around the diagonal entry. */
  lemma RowAroundDiagonal(a: Matrix, b: Vector, x: Vector, i: nat)
    requires SweepReady(a, b) && |x| == |b| && i < |b|
    ensures Dot(a[i], x) == Dot(a[i][..i], x[..i]) + Mul(a[i][i], x[i]) + Dot(a[i][i + 1..], x[i + 1..])
  {
    DotSplit(a[i], x, i);
    DotFrom(a[i], x, i);
  }

  /** Entry i is left as it is by the update exactly when row i of a·x = b holds. */
  lemma UpdateFixed(a: Matrix, b: Vector, x: Vector, i: nat)
    requires SweepReady(a, b) && |x| == |b| && i < |b|
    ensures Update(a, b, x, x, i) == x[i] <==> Dot(a[i], x) == b[i]
  {
    var rest := b[i] - Dot(a[i][..i], x[..i]) - Dot(a[i][i + 1..], x[i + 1..]);
    RowAroundDiagonal(a, b, x, i);
    if Update(a, b, x, x, i) == x[i] {
      MulQuotient(a[i][i], rest);
    }
    if Dot(a[i], x) == b[i] {
      assert rest == Mul(a[i][i], x[i]);
      MulDivide(a[i][i], x[i]);
    }
  }

  /** From a solution, every partial sweep leaves the vector unchanged. */
  lemma {:induction false} SweepPrefixOfSolution(a: Matrix, b: Vector, x: Vector, k: nat)
    requires SweepReady(a, b) && |x| == |b| && k <= |b| && Solves(a, b, x)
    ensures SweepPrefix(a, b, x, k) == x
  {
    if k > 0 {
      SweepPrefixOfSolution(a, b, x, k - 1);
      UpdateFixed(a, b, x, k - 1);
    }
  }

  /** A sweep leaves x unchanged exactly when x solves a·x = b. */
  lemma SweepFixedPoint(a: Matrix, b: Vector, x: Vector)
    requires SweepReady(a, b) && |x| == |b|
    ensures Sweep(a, b, x) == x <==> Solves(a, b, x)
  {
    if Sweep(a, b, x) == x {
      SweepEquation(a, b, x);
      forall i | 0 <= i < |b|
        ensures |a[i]| == |x| && Dot(a[i], x) == b[i]
      {
        UpdateFixed(a, b, x, i);
      }
    }
    if Solves(a, b, x) {
      SweepPrefixOfSolution(a, b, x, |b|);
    }
  }

  /**
   * On the system `seidel` builds, a sweep leaves x unchanged exactly when
   * the residual A·x − b is orthogonal to every column of A.
   */
  lemma LeastSquaresFixedPoint(A: Matrix, b: Vector, n: nat, x: Vector)
    requires IsMatrix(A, |b|, n) && |x| == n
    requires SweepReady(Gram(A, n), NormalRhs(A, b, n))
    ensures Sweep(Gram(A, n), NormalRhs(A, b, n), x) == x <==>
      forall i :: 0 <= i < n ==> Dot(Column(A, i), Difference(Apply(A, x), b)) == 0.0
  {
    SweepFixedPoint(Gram(A, n), NormalRhs(A, b, n), x);
    NormalEquations(A, b, n, x);
  }

  /** A vector is at distance zero from itself. */
  lemma {:induction false} DifferenceSelf(x: Vector)
    ensures Dot(Difference(x, x), Difference(x, x)) == 0.0
  {
    var d := Difference(x, x);
    DotZeroTerms(d, d);
  }

  /** Once an iterate solves a·x = b, the next sweep repeats it and passes the stopping test for any tol > 0. */
  lemma SolutionSettles(a: Matrix, b: Vector, k: nat, tol: real)
    requires SweepReady(a, b) && k >= 1 && 0.0 < tol
    requires Solves(a, b, AfterSweeps(a, b, k - 1))
    ensures AfterSweeps(a, b, k) == AfterSweeps(a, b, k - 1)
    ensures Settled(a, b, k, tol)
  {
    var x := AfterSweeps(a, b, k - 1);
    SweepFixedPoint(a, b, x);
    assert AfterSweeps(a, b, k) == x;
    DifferenceSelf(x);
    MulSquare(tol);
  }

  /** One sweep, overwriting x[0], x[1], … in place; `xOld` is the copy taken before it. */
  method SweepInPlace(a: Matrix, b: Vector, x: array<real>, xOld: Vector)
    requires SweepReady(a, b) && x.Length == |b| && x[..] == xOld
    modifies x
    ensures x[..] == Sweep(a, b, xOld)
  {
    for i := 0 to |b|
      invariant x[..] == SweepPrefix(a, b, xOld, i)
    {
      x[i] := (b[i] - Dot(a[i][..i], x[..i]) - Dot(a[i][i + 1..], xOld[i + 1..])) / a[i][i];
    }
  }

  /**
   * Solves the normal equations of matrixA·x = vectorB by Gauss–Seidel,
   * starting from zero and sweeping until the change is below `tol`, at most
   * `maxSweeps` times.  `columns` is the number of columns of matrixA.
   */
  method Seidel(matrixA: Matrix, vectorB: Vector, columns: nat, maxSweeps: nat, tol: real := 0.000000000000001)
    returns (r: Result<Vector, SeidelError>)
    requires IsMatrix(matrixA, |vectorB|, columns)
    ensures r == Err(ZeroDiagonal) <==>
      exists i :: 0 <= i < columns && Gram(matrixA, columns)[i][i] == 0.0
    ensures r.Ok? ==>
      SweepReady(Gram(matrixA, columns), NormalRhs(matrixA, vectorB, columns)) &&
      exists k :: 1 <= k <= maxSweeps &&
        r.value == AfterSweeps(Gram(matrixA, columns), NormalRhs(matrixA, vectorB, columns), k) &&
        Settled(Gram(matrixA, columns), NormalRhs(matrixA, vectorB, columns), k, tol) &&
        forall j :: 1 <= j < k ==> !Settled(Gram(matrixA, columns), NormalRhs(matrixA, vectorB, columns), j, tol)
    ensures r == Err(NonConvergence) ==>
      SweepReady(Gram(matrixA, columns), NormalRhs(matrixA, vectorB, columns)) &&
      forall j :: 1 <= j <= maxSweeps ==> !Settled(Gram(matrixA, columns), NormalRhs(matrixA, vectorB, columns), j, tol)
  {
    var a := Gram(matrixA, columns);
    var b := NormalRhs(matrixA, vectorB, columns);
    if exists i :: 0 <= i < columns && a[i][i] == 0.0 {
      return Err(ZeroDiagonal);
    }
    var x := new real[columns](_ => 0.0);
    var sweeps := 0;
    while sweeps < maxSweeps
      invariant sweeps <= maxSweeps
      invariant x.Length == columns && x[..] == AfterSweeps(a, b, sweeps)
      invariant forall j :: 1 <= j <= sweeps ==> !Settled(a, b, j, tol)
    {
      var xOld := x[..];
      SweepInPlace(a, b, x, xOld);
      sweeps := sweeps + 1;
      var d := Difference(x[..], xOld);
      if 0.0 < tol && Dot(d, d) < tol * tol {
        assert tol * tol == Mul(tol, tol);
        assert Settled(a, b, sweeps, tol);
        return Ok(x[..]);
      }
    }
    return Err(NonConvergence);
  }
}
