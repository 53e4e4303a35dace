/**
 * Gaussian elimination with partial pivoting and back-substitution
 * (`gaussian_elimination` in Labs/Labs_1.py).  The working n×(n+1)
 * augmented array is updated in place; the caller's matrix and vector are
 * values and are never changed.
 */
module Gauss {
  import opened Wrappers
  import opened Reals
  import opened Matrices

  datatype SolveError = SingularMatrix

  /** The rows of a 2-D array, as a matrix value. */
  ghost function Rows(aug: array2<real>): (m: Matrix)
    reads aug
    ensures IsMatrix(m, aug.Length0, aug.Length1)
    ensures forall r, c {:trigger m[r][c]} :: 0 <= r < aug.Length0 && 0 <= c < aug.Length1 ==> m[r][c] == aug[r, c]
  {
    seq(aug.Length0, r requires 0 <= r < aug.Length0 reads aug =>
      seq(aug.Length1, c requires 0 <= c < aug.Length1 reads aug => aug[r, c]))
  }

  /** Entries lo..hi-1 of row r (numpy's `aug[r, lo:hi]`). */
  function RowSegment(aug: array2<real>, r: nat, lo: nat, hi: nat): (s: Vector)
    requires r < aug.Length0 && lo <= hi <= aug.Length1
    reads aug
  {
    seq(hi - lo, k requires 0 <= k < hi - lo reads aug => aug[r, lo + k])
  }

  /** Below the diagonal, the first k columns hold zeros. */
  ghost predicate ZeroBelowDiagonal(m: Matrix, k: nat) {
    forall r, c :: 0 <= c < k && c < r < |m| && c < |m[r]| ==> m[r][c] == 0.0
  }

  /** The first k diagonal entries are nonzero. */
  ghost predicate NonzeroDiagonal(m: Matrix, k: nat) {
    forall c :: 0 <= c < k && c < |m| && c < |m[c]| ==> m[c][c] != 0.0
  }

  /** The working array [matrix | vector] (numpy's `column_stack`). */
  method Augment(matrix: Matrix, vector: Vector) returns (aug: array2<real>)
    requires IsSquare(matrix, |vector|)
    ensures fresh(aug)
    ensures aug.Length0 == |vector| && aug.Length1 == |vector| + 1
    ensures Rows(aug) == Augmented(matrix, vector)
  {
    var n := |vector|;
    aug := new real[n, n + 1]((r, c) requires 0 <= r < n && 0 <= c < n + 1 =>
      if c < n then matrix[r][c] else vector[r]);
    ghost var m := Augmented(matrix, vector);
    forall r | 0 <= r < n
      ensures Rows(aug)[r] == m[r]
    {
      assert Rows(aug)[r] == matrix[r] + [vector[r]];
    }
  }

  /**
   * The row, among rows i..n-1, whose entry in column i has the largest
   * absolute value; on a tie the first such row, as Python's `max` keeps the
   * first maximal element.
   */
  method PivotRow(aug: array2<real>, i: nat) returns (p: nat)
    requires i < aug.Length0 && i < aug.Length1
    ensures i <= p < aug.Length0
    ensures forall k :: i <= k < aug.Length0 ==> Abs(aug[k, i]) <= Abs(aug[p, i])
    ensures forall k :: i <= k < p ==> Abs(aug[k, i]) < Abs(aug[p, i])
  {
    p := i;
    for k := i + 1 to aug.Length0
      invariant i <= p < k
      invariant forall q :: i <= q < k ==> Abs(aug[q, i]) <= Abs(aug[p, i])
      invariant forall q :: i <= q < p ==> Abs(aug[q, i]) < Abs(aug[p, i])
    {
      if Abs(aug[k, i]) > Abs(aug[p, i]) {
        p := k;
      }
    }
  }

  /** Exchanges rows i and p in place (numpy's `aug[[i, p]] = aug[[p, i]]`). */
  method SwapRows(aug: array2<real>, i: nat, p: nat)
    requires i < aug.Length0 && p < aug.Length0
    modifies aug
    ensures forall r, c :: 0 <= r < aug.Length0 && 0 <= c < aug.Length1 ==>
      aug[r, c] == old(aug[if r == i then p else if r == p then i else r, c])
    ensures Rows(aug) == Swapped(old(Rows(aug)), i, p)
    ensures i == p ==> Rows(aug) == old(Rows(aug))
  {
    ghost var before := Rows(aug);
    forall r, c | 0 <= r < aug.Length0 && (r == i || r == p) && 0 <= c < aug.Length1 {
      aug[r, c] := aug[if r == i then p else i, c];
    }
    ghost var swapped := Swapped(before, i, p);
    forall r | 0 <= r < aug.Length0
      ensures Rows(aug)[r] == swapped[r]
    {
      var o := if r == i then p else if r == p then i else r;
      assert swapped[r] == before[o];
    }
  }

  /**
   * Subtracts `factor` times row i from row j on columns i..n (numpy's
   * `aug[j, i:] -= factor * aug[i, i:]`).
   */
  method SubtractRow(aug: array2<real>, j: nat, i: nat, factor: real)
    requires i < aug.Length0 && j < aug.Length0 && i != j
    modifies aug
    ensures Rows(aug) == old(Rows(aug))[j := SubtractedRow(old(Rows(aug))[j], factor, old(Rows(aug))[i], i)]
  {
    ghost var before := Rows(aug);
    forall c | i <= c < aug.Length1 {
      aug[j, c] := aug[j, c] - factor * aug[i, c];
    }
    ghost var row := SubtractedRow(before[j], factor, before[i], i);
    ghost var now := Rows(aug);
    forall c | 0 <= c < aug.Length1
      ensures now[j][c] == row[c]
    {
      if c < i {
        SubtractedRowEntry(before[j], factor, before[i], i, c);
        assert now[j][c] == aug[j, c] == before[j][c];
        assert now[j][c] == row[c];
      } else {
        var x, y := before[j][c], before[i][c];
        assert old(aug[j, c]) == x && old(aug[i, c]) == y;
        assert aug[j, c] == x - factor * y;
        SubtractedRowEntry(before[j], factor, before[i], i, c);
        assert now[j][c] == aug[j, c];
      }
    }
    forall r | 0 <= r < aug.Length0 && r != j
      ensures now[r] == before[r]
    {
      forall c | 0 <= c < aug.Length1
        ensures now[r][c] == before[r][c]
      {
        assert now[r][c] == aug[r, c];
      }
    }
    assert now[j] == row;
  }

  /** One more row cleared: row j of the partly reduced matrix is still row j of `m`. */
  lemma EliminatedUpToStep(m: Matrix, i: nat, j: nat)
    requires PivotReady(m, i) && i < j < |m|
    ensures EliminatedUpTo(m, i, j)[j := SubtractedRow(m[j], m[j][i] / m[i][i], m[i], i)] == EliminatedUpTo(m, i, j + 1)
  {
  }

  /**
   * Subtracts, from every row j below row i, the multiple aug[j,i]/aug[i,i]
   * of row i, on columns i..n.
   */
  method EliminateBelow(aug: array2<real>, i: nat)
    requires i < aug.Length0 && i < aug.Length1
    requires aug[i, i] != 0.0
    modifies aug
    ensures PivotReady(old(Rows(aug)), i)
    ensures Rows(aug) == Eliminated(old(Rows(aug)), i)
  {
    ghost var before := Rows(aug);
    assert PivotReady(before, i);
    assert EliminatedUpTo(before, i, i + 1) == before;
    for j := i + 1 to aug.Length0
      invariant Rows(aug) == EliminatedUpTo(before, i, j)
    {
      ghost var current := Rows(aug);
      assert current[j] == before[j] && current[i] == before[i];
      var factor := aug[j, i] / aug[i, i];
      SubtractRow(aug, j, i, factor);
      EliminatedUpToStep(before, i, j);
    }
  }

  /**
   * Rows i..n-1 meet their back-substitution equation for the values in
   * `s`: row r from the diagonal on, dotted with s from r on, gives the
   * right-hand side.
   */
  ghost predicate BackSolved(aug: array2<real>, s: Vector, i: nat)
    requires aug.Length1 == aug.Length0 + 1 && |s| == aug.Length0
    reads aug
  {
    forall r :: i <= r < aug.Length0 ==> Dot(RowSegment(aug, r, r, aug.Length0), s[r..]) == aug[r, aug.Length0]
  }

  /** Setting entry i to the back-substituted value solves row i and keeps the rows below it solved. */
  lemma BackSolvedStep(aug: array2<real>, s: Vector, i: nat, v: real)
    requires aug.Length1 == aug.Length0 + 1 && |s| == aug.Length0 && i < aug.Length0
    requires aug[i, i] != 0.0 && BackSolved(aug, s, i + 1)
    requires v == (aug[i, aug.Length0] - Dot(RowSegment(aug, i, i + 1, aug.Length0), s[i + 1..])) / aug[i, i]
    ensures BackSolved(aug, s[i := v], i)
  {
    var n, t := aug.Length0, s[i := v];
    forall r | i < r < n
      ensures Dot(RowSegment(aug, r, r, n), t[r..]) == aug[r, n]
    {
      assert t[r..] == s[r..];
    }
    var seg, rest := RowSegment(aug, i, i, n), RowSegment(aug, i, i + 1, n);
    assert seg[1..] == rest;
    assert t[i..][1..] == s[i + 1..];
    assert seg[0] == aug[i, i] && t[i..][0] == v;
    MulQuotient(aug[i, i], aug[i, n] - Dot(rest, s[i + 1..]));
  }

  /**
   * Fills the solution from the last entry to the first:
   * x[i] = (aug[i,n] - aug[i,i+1..n]·x[i+1..]) / aug[i,i].
   */
  method BackSubstitute(aug: array2<real>) returns (x: Vector)
    requires aug.Length1 == aug.Length0 + 1
    requires forall i :: 0 <= i < aug.Length0 ==> aug[i, i] != 0.0
    ensures |x| == aug.Length0
    ensures forall i :: 0 <= i < aug.Length0 ==> Dot(RowSegment(aug, i, i, aug.Length0), x[i..]) == aug[i, aug.Length0]
  {
    var n := aug.Length0;
    var solution := new real[n](_ => 0.0);
    for i := n downto 0
      invariant BackSolved(aug, solution[..], i)
    {
      ghost var prev := solution[..];
      var v := (aug[i, n] - Dot(RowSegment(aug, i, i + 1, n), solution[i + 1..])) / aug[i, i];
      assert solution[i + 1..] == prev[i + 1..];
      solution[i] := v;
      BackSolvedStep(aug, prev, i, v);
      assert solution[..] == prev[i := v];
    }
    x := solution[..];
    assert BackSolved(aug, x, 0);
  }

  /** The back-substitution equations, read on the rows of the array. */
  lemma BackSolvedRows(aug: array2<real>, x: Vector, u: Matrix, n: nat)
    requires n == aug.Length0 && aug.Length1 == n + 1 && |x| == n && u == Rows(aug)
    requires forall i :: 0 <= i < n ==> Dot(RowSegment(aug, i, i, n), x[i..]) == aug[i, n]
    ensures forall k :: 0 <= k < n ==> Dot(u[k][k..n], x[k..]) == u[k][n]
  {
    forall k | 0 <= k < n
      ensures Dot(u[k][k..n], x[k..]) == u[k][n]
    {
      var seg := RowSegment(aug, k, k, n);
      forall t | 0 <= t < |seg|
        ensures seg[t] == u[k][k + t]
      {
      }
      assert seg == u[k][k..n];
      assert u[k][n] == aug[k, n];
    }
  }

  /** A row that meets its back-substitution equation is orthogonal to (x, −1). */
  lemma BackRowDot(row: Vector, x: Vector, r: nat)
    requires |row| == |x| + 1 && r < |x|
    requires forall c :: 0 <= c < r ==> row[c] == 0.0
    requires Dot(row[r..|x|], x[r..]) == row[|x|]
    ensures Dot(row, x + [-1.0]) == 0.0
  {
    var n, y := |x|, x + [-1.0];
    UpperRowDot(row, y, r);
    SliceLast(row, r);
    SliceAppend(x, -1.0, r);
    DotAppendNegated(row[r..n], x[r..], row[n]);
  }

  /**
   * An upper-triangular system whose rows meet the back-substitution
   * equations has (x, −1) as a null vector.
   */
  lemma BackSubstitutionSolves(u: Matrix, n: nat, x: Vector)
    requires IsMatrix(u, n, n + 1) && |x| == n && ZeroBelowDiagonal(u, n)
    requires forall r :: 0 <= r < n ==> Dot(u[r][r..n], x[r..]) == u[r][n]
    ensures Kernel(u, x + [-1.0])
  {
    forall r | 0 <= r < n
      ensures Dot(u[r], x + [-1.0]) == 0.0
    {
      BackRowDot(u[r], x, r);
    }
  }

  /**
   * An upper-triangular system with nonzero diagonal has at most one
   * solution: its entries are fixed from the last one up.
   */
  lemma TriangularUnique(u: Matrix, n: nat, x: Vector, y: Vector)
    requires IsMatrix(u, n, n + 1) && |x| == n && |y| == n
    requires ZeroBelowDiagonal(u, n) && NonzeroDiagonal(u, n)
    requires Kernel(u, x + [-1.0]) && Kernel(u, y + [-1.0])
    ensures x == y
  {
    var x', y' := x + [-1.0], y + [-1.0];
    var k := n;
    while k > 0
      invariant 0 <= k <= n
      invariant forall c :: k <= c < n ==> x[c] == y[c]
    {
      k := k - 1;
      UpperRowDot(u[k], x', k);
      UpperRowDot(u[k], y', k);
      DotFrom(u[k], x', k);
      DotFrom(u[k], y', k);
      assert x'[k + 1..] == y'[k + 1..];
      assert x'[k] == x[k] && y'[k] == y[k];
      MulCancel(u[k][k], x[k], y[k]);
    }
  }

  /**
   * When the pivot column i is zero from row i down, a null vector with a 1
   * in position i exists: entries after i are 0, and entries before i are
   * filled from row i-1 up so that each of those rows meets it in zero.
   */
  lemma SingularWitness(u: Matrix, n: nat, i: nat) returns (y: Vector)
    requires IsMatrix(u, n, n + 1) && i < n
    requires ZeroBelowDiagonal(u, i) && NonzeroDiagonal(u, i)
    requires forall r :: i <= r < n ==> u[r][i] == 0.0
    ensures |y| == n + 1 && y[i] == 1.0 && y[n] == 0.0 && Kernel(u, y)
  {
    y := seq(n + 1, c => if c == i then 1.0 else 0.0);
    var k := i;
    while k > 0
      invariant 0 <= k <= i
      invariant |y| == n + 1 && y[i] == 1.0
      invariant forall c :: i < c <= n ==> y[c] == 0.0
      invariant forall r :: k <= r < i ==> Dot(u[r], y) == 0.0
    {
      k := k - 1;
      var d := Dot(u[k][k + 1..], y[k + 1..]);
      var v := -d / u[k][k];
      forall r | k < r < i
        ensures Dot(u[r], y[k := v]) == 0.0
      {
        DotUpdateZero(u[r], y, k, v);
      }
      var y' := y[k := v];
      UpperRowDot(u[k], y', k);
      DotFrom(u[k], y', k);
      assert y'[k + 1..] == y[k + 1..];
      MulQuotient(u[k][k], -d);
      y := y';
    }
    forall r | i <= r < n
      ensures Dot(u[r], y) == 0.0
    {
      DotZeroTerms(u[r], y);
    }
  }

  /**
   * A zero pivot column after the first i columns are reduced makes the
   * original matrix singular.
   */
  lemma SingularFromZeroColumn(matrix: Matrix, vector: Vector, u: Matrix, i: nat)
    requires IsSquare(matrix, |vector|) && i < |vector|
    requires Reduced(u, i, Augmented(matrix, vector), |vector|)
    requires forall r :: i <= r < |vector| ==> u[r][i] == 0.0
    ensures Singular(matrix)
  {
    var n := |vector|;
    var y := SingularWitness(u, n, i);
    assert Kernel(Augmented(matrix, vector), y);
    var z := y[..n];
    SplitLast(y);
    AugmentedKernel(matrix, vector, z);
    assert z[i] != 0.0;
    assert |z| == |matrix| && NonZero(z) && Kernel(matrix, z);
  }

  /**
   * A fully reduced system with the same null vectors as [matrix | vector],
   * solved by back-substitution, gives the one and only solution.
   */
  lemma SolvedFromTriangular(matrix: Matrix, vector: Vector, u: Matrix, x: Vector)
    requires IsSquare(matrix, |vector|) && |x| == |vector|
    requires Reduced(u, |vector|, Augmented(matrix, vector), |vector|)
    requires forall r :: 0 <= r < |vector| ==> Dot(u[r][r..|vector|], x[r..]) == u[r][|vector|]
    ensures Solves(matrix, vector, x)
    ensures forall y :: |y| == |vector| && Solves(matrix, vector, y) ==> y == x
    ensures !Singular(matrix)
  {
    var n := |vector|;
    BackSubstitutionSolves(u, n, x);
    AugmentedSolves(matrix, vector, x);
    forall y | |y| == n && Solves(matrix, vector, y)
      ensures y == x
    {
      AugmentedSolves(matrix, vector, y);
      TriangularUnique(u, n, x, y);
    }
    UniqueSolutionNonsingular(matrix, vector, x);
  }

  /**
   * The state after i elimination steps: the first i columns are zero below
   * a nonzero diagonal, and `m` has the same null vectors as `target`.
   */
  ghost predicate Reduced(m: Matrix, i: nat, target: Matrix, n: nat) {
    IsMatrix(m, n, n + 1) && ZeroBelowDiagonal(m, i) && NonzeroDiagonal(m, i) && SameKernel(m, target, n + 1)
  }

  /** Exchanging row i with a row below it keeps the reduced shape of the first i columns. */
  lemma SwapKeepsShape(m: Matrix, n: nat, i: nat, p: nat)
    requires IsMatrix(m, n, n + 1) && i <= p < n
    requires ZeroBelowDiagonal(m, i) && NonzeroDiagonal(m, i)
    ensures IsMatrix(Swapped(m, i, p), n, n + 1)
    ensures ZeroBelowDiagonal(Swapped(m, i, p), i) && NonzeroDiagonal(Swapped(m, i, p), i)
  {
  }

  /** Clearing column i below a nonzero pivot extends the reduced shape to column i. */
  lemma EliminationShape(m: Matrix, n: nat, i: nat)
    requires IsMatrix(m, n, n + 1) && i < n && m[i][i] != 0.0
    requires ZeroBelowDiagonal(m, i) && NonzeroDiagonal(m, i)
    ensures PivotReady(m, i)
    ensures IsMatrix(Eliminated(m, i), n, n + 1)
    ensures ZeroBelowDiagonal(Eliminated(m, i), i + 1) && NonzeroDiagonal(Eliminated(m, i), i + 1)
  {
    var e := Eliminated(m, i);
    forall r, c | 0 <= c < i + 1 && c < r < n
      ensures e[r][c] == 0.0
    {
      if c < i {
        assert m[i][c] == 0.0;
      }
    }
  }

  /** If the largest entry of column i from row i down is zero, the whole stretch is zero after the swap. */
  lemma ZeroPivotColumn(m: Matrix, n: nat, i: nat, p: nat)
    requires IsMatrix(m, n, n + 1) && i <= p < n
    requires forall k :: i <= k < n ==> Abs(m[k][i]) <= Abs(m[p][i])
    requires m[p][i] == 0.0
    ensures forall k :: i <= k < n ==> Swapped(m, i, p)[k][i] == 0.0
  {
  }

  /** A step with a nonzero pivot (swap, then clear below) reduces one more column. */
  lemma PivotStep(m: Matrix, i: nat, p: nat, n: nat, target: Matrix)
    requires Reduced(m, i, target, n) && i <= p < n && m[p][i] != 0.0
    ensures PivotReady(Swapped(m, i, p), i)
    ensures Reduced(Eliminated(Swapped(m, i, p), i), i + 1, target, n)
  {
    var s := Swapped(m, i, p);
    SwapKeepsKernel(m, i, p, n + 1);
    SameKernelChain(s, m, target, n + 1);
    SwapKeepsShape(m, n, i, p);
    EliminationKeepsKernel(s, i, n + 1);
    EliminationShape(s, n, i);
    SameKernelChain(Eliminated(s, i), s, target, n + 1);
  }

  /** A step whose largest pivot candidate is zero shows the matrix singular. */
  lemma ZeroPivotStep(matrix: Matrix, vector: Vector, m: Matrix, i: nat, p: nat)
    requires IsSquare(matrix, |vector|) && i <= p < |vector|
    requires Reduced(m, i, Augmented(matrix, vector), |vector|)
    requires forall k :: i <= k < |vector| ==> Abs(m[k][i]) <= Abs(m[p][i])
    requires m[p][i] == 0.0
    ensures Singular(matrix)
  {
    var n, s := |vector|, Swapped(m, i, p);
    SwapKeepsKernel(m, i, p, n + 1);
    SameKernelChain(s, m, Augmented(matrix, vector), n + 1);
    SwapKeepsShape(m, n, i, p);
    ZeroPivotColumn(m, n, i, p);
    SingularFromZeroColumn(matrix, vector, s, i);
  }

  /**
   * Solves matrix·x = vector.  Each column i picks the pivot row by largest
   * absolute value, swaps it into row i and clears the entries below it;
   * back-substitution then yields x.  A zero pivot (the whole column from
   * row i down is zero) ends the solve with SingularMatrix.
   */
  method GaussianElimination(matrix: Matrix, vector: Vector) returns (r: Result<Vector, SolveError>)
    requires IsSquare(matrix, |vector|)
    ensures r.Ok? ==> |r.value| == |vector| && Solves(matrix, vector, r.value)
    ensures r.Ok? ==> forall y :: |y| == |vector| && Solves(matrix, vector, y) ==> y == r.value
    ensures r.Err? ==> r.error == SingularMatrix && Singular(matrix)
    ensures r.Ok? <==> !Singular(matrix)
  {
    var n := |vector|;
    var aug := Augment(matrix, vector);
    ghost var target := Augmented(matrix, vector);
    for i := 0 to n
      invariant Reduced(Rows(aug), i, target, n)
    {
      var p := PivotRow(aug, i);
      ghost var before := Rows(aug);
      assert forall k :: i <= k < n ==> Abs(before[k][i]) <= Abs(before[p][i]);
      SwapRows(aug, i, p);
      assert aug[i, i] == Rows(aug)[i][i] == before[p][i];
      if aug[i, i] == 0.0 {
        ZeroPivotStep(matrix, vector, before, i, p);
        return Err(SingularMatrix);
      }
      PivotStep(before, i, p, n, target);
      EliminateBelow(aug, i);
    }
    ghost var reduced := Rows(aug);
    assert forall k :: 0 <= k < n ==> aug[k, k] == reduced[k][k] != 0.0;
    var x := BackSubstitute(aug);
    BackSolvedRows(aug, x, reduced, n);
    SolvedFromTriangular(matrix, vector, reduced, x);
    return Ok(x);
  }
}
