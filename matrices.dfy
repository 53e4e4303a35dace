/**
 * Dense real vectors and matrices as sequences (row-major), the dot product
 * that numpy's `dot` computes on them, and the facts about it that the two
 * linear solvers rely on.  A matrix is never changed here: these are values.
 */
module Matrices {
  type Vector = seq<real>
  type Matrix = seq<seq<real>>

  /** `m` has `rows` rows, each holding `cols` entries. */
  predicate IsMatrix(m: Matrix, rows: nat, cols: nat) {
    |m| == rows && forall r :: 0 <= r < rows ==> |m[r]| == cols
  }

  predicate IsSquare(m: Matrix, n: nat) {
    IsMatrix(m, n, n)
  }

  /** The vector of `n` zeros (numpy's `zeros(n)`). */
  function Zeros(n: nat): Vector {
    seq(n, _ => 0.0)
  }

  /** A suffix of a vector is its middle part followed by the last entry. */
  lemma SliceLast(s: Vector, r: nat)
    requires r < |s|
    ensures s[r..] == s[r..|s| - 1] + [s[|s| - 1]]
  {
  }

  /** A nonempty vector is its prefix followed by its last entry. */
  lemma SplitLast(s: Vector)
    requires |s| > 0
    ensures s == s[..|s| - 1] + [s[|s| - 1]]
  {
  }

  /** A suffix of an extended vector is the suffix extended. */
  lemma SliceAppend(s: Vector, a: real, r: nat)
    requires r <= |s|
    ensures (s + [a])[r..] == s[r..] + [a]
  {
  }

  /**
   * The product of two entries: one term of a dot product.  Products are
   * named by this function rather than written with `*` so that the solver
   * treats equal factors as giving equal terms without nonlinear reasoning.
   */
  function Mul(a: real, b: real): real {
    a * b
  }

  /** Sum of the products of corresponding entries; 0 for empty vectors. */
  function Dot(u: Vector, v: Vector): real
    requires |u| == |v|
  {
    if |u| == 0 then 0.0 else Mul(u[0], v[0]) + Dot(u[1..], v[1..])
  }

  lemma MulZero(a: real, b: real)
    requires a == 0.0 || b == 0.0
    ensures Mul(a, b) == 0.0
  {
  }

  /** Multiplication distributes over a difference with a scaled term. */
  lemma MulSubScaled(a: real, f: real, b: real, c: real)
    ensures Mul(a - f * b, c) == Mul(a, c) - Mul(f, Mul(b, c))
  {
  }

  /** Multiplication distributes over a sum. */
  lemma MulAdd(f: real, a: real, b: real)
    ensures Mul(f, a + b) == Mul(f, a) + Mul(f, b)
  {
  }

  /** Dividing by a nonzero entry and multiplying back. */
  lemma MulQuotient(a: real, c: real)
    requires a != 0.0
    ensures Mul(a, c / a) == c
  {
  }

  /** A nonzero factor cancels. */
  lemma MulCancel(a: real, b: real, c: real)
    requires a != 0.0 && Mul(a, b) == Mul(a, c)
    ensures b == c
  {
    assert a * (b - c) == 0.0;
  }

  /** The dot product from position `k` on: its first term and the rest. */
  lemma DotFrom(u: Vector, v: Vector, k: nat)
    requires |u| == |v| && k < |u|
    ensures Dot(u[k..], v[k..]) == Mul(u[k], v[k]) + Dot(u[k + 1..], v[k + 1..])
  {
    assert u[k..][1..] == u[k + 1..];
    assert v[k..][1..] == v[k + 1..];
  }

  /** The dot product splits at any position. */
  lemma {:induction false} DotSplit(u: Vector, v: Vector, k: nat)
    requires |u| == |v| && k <= |u|
    ensures Dot(u, v) == Dot(u[..k], v[..k]) + Dot(u[k..], v[k..])
  {
    if k == 0 {
      assert u[..0] == [] && v[..0] == [];
      assert u[0..] == u && v[0..] == v;
    } else {
      DotSplit(u[1..], v[1..], k - 1);
      assert u[1..][..k - 1] == u[..k][1..];
      assert v[1..][..k - 1] == v[..k][1..];
      assert u[1..][k - 1..] == u[k..];
      assert v[1..][k - 1..] == v[k..];
    }
  }

  /** A dot product whose every term has a zero factor is zero. */
  lemma {:induction false} DotZeroTerms(u: Vector, v: Vector)
    requires |u| == |v|
    requires forall c :: 0 <= c < |u| ==> u[c] == 0.0 || v[c] == 0.0
    ensures Dot(u, v) == 0.0
  {
    if |u| > 0 {
      MulZero(u[0], v[0]);
      DotZeroTerms(u[1..], v[1..]);
    }
  }

  /** A row whose entries before `k` are zero meets `v` only from position `k` on. */
  lemma {:induction false} UpperRowDot(u: Vector, v: Vector, k: nat)
    requires |u| == |v| && k <= |u|
    requires forall c :: 0 <= c < k ==> u[c] == 0.0
    ensures Dot(u, v) == Dot(u[k..], v[k..])
  {
    if k == 0 {
      assert u[0..] == u && v[0..] == v;
    } else {
      MulZero(u[0], v[0]);
      UpperRowDot(u[1..], v[1..], k - 1);
      assert u[1..][k - 1..] == u[k..];
      assert v[1..][k - 1..] == v[k..];
    }
  }

  /** Appending one entry to both vectors adds its product. */
  lemma {:induction false} DotAppend(u: Vector, v: Vector, s: real, t: real)
    requires |u| == |v|
    ensures Dot(u + [s], v + [t]) == Dot(u, v) + Mul(s, t)
  {
    if |u| == 0 {
      assert u + [s] == [s] && v + [t] == [t];
    } else {
      DotAppend(u[1..], v[1..], s, t);
      assert (u + [s])[1..] == u[1..] + [s];
      assert (v + [t])[1..] == v[1..] + [t];
    }
  }

  /** Appending s to one vector and −1 to the other subtracts s. */
  lemma DotAppendNegated(u: Vector, v: Vector, s: real)
    requires |u| == |v|
    ensures Dot(u + [s], v + [-1.0]) == Dot(u, v) - s
  {
    DotAppend(u, v, s, -1.0);
    assert Mul(s, -1.0) == -s;
  }

  /** Changing an entry of `v` that meets a zero entry of `u` leaves the dot product as it was. */
  lemma {:induction false} DotUpdateZero(u: Vector, v: Vector, k: nat, s: real)
    requires |u| == |v| && k < |u| && u[k] == 0.0
    ensures Dot(u, v[k := s]) == Dot(u, v)
  {
    if k == 0 {
      MulZero(u[0], v[0]);
      MulZero(u[0], s);
      assert v[k := s][1..] == v[1..];
    } else {
      DotUpdateZero(u[1..], v[1..], k - 1, s);
      assert v[k := s][1..] == v[1..][k - 1 := s];
    }
  }

  /** A nonzero real has a positive square. */
  lemma SquarePositive(a: real)
    requires a != 0.0
    ensures a * a > 0.0
  {
    if a < 0.0 {
      assert a * a == (-a) * (-a);
    }
  }

  /** Mul agrees with a positive product. */
  lemma MulPositive(a: real, b: real)
    requires a * b > 0.0
    ensures Mul(a, b) > 0.0
  {
  }

  /** A square is never negative, and is zero only at zero. */
  lemma MulSquare(a: real)
    ensures Mul(a, a) >= 0.0
    ensures Mul(a, a) == 0.0 <==> a == 0.0
  {
    if a != 0.0 {
      SquarePositive(a);
      MulPositive(a, a);
    }
  }

  /** Products of smaller nonnegative factors are smaller. */
  lemma MulLess(s: real, t: real, u: real, v: real)
    requires 0.0 <= s < t && 0.0 <= u < v
    ensures Mul(s, u) < Mul(t, v)
  {
    assert s * u <= s * v;
    assert s * v < t * v;
  }

  lemma MulAtMost(s: real, t: real, u: real, v: real)
    requires 0.0 <= s <= t && 0.0 <= u <= v
    ensures Mul(s, u) <= Mul(t, v)
  {
    assert s * u <= s * v;
    assert s * v <= t * v;
  }

  /** Squaring keeps the order of nonnegative reals. */
  lemma MulSquareLess(s: real, t: real)
    requires 0.0 <= s && 0.0 <= t
    ensures s < t <==> Mul(s, s) < Mul(t, t)
  {
    if s < t {
      MulLess(s, t, s, t);
    } else {
      MulAtMost(t, s, t, s);
    }
  }

  /** A vector dotted with itself is never negative, and is zero only for the zero vector. */
  lemma {:induction false} DotSelf(u: Vector)
    ensures Dot(u, u) >= 0.0
    ensures Dot(u, u) == 0.0 <==> forall c :: 0 <= c < |u| ==> u[c] == 0.0
  {
    if |u| > 0 {
      MulSquare(u[0]);
      DotSelf(u[1..]);
      if Dot(u, u) == 0.0 {
        forall c | 0 <= c < |u|
          ensures u[c] == 0.0
        {
          if c > 0 {
            assert u[c] == u[1..][c - 1];
          }
        }
      }
    }
  }

  lemma {:induction false} DotSymmetric(u: Vector, v: Vector)
    requires |u| == |v|
    ensures Dot(u, v) == Dot(v, u)
  {
    if |u| > 0 {
      DotSymmetric(u[1..], v[1..]);
      assert Mul(u[0], v[0]) == Mul(v[0], u[0]);
    }
  }

  /** The dot product is linear in its first argument: row `r` = `u` − `f`·`w`. */
  lemma {:induction false} DotCombine(r: Vector, u: Vector, f: real, w: Vector, v: Vector)
    requires |r| == |u| == |w| == |v|
    requires forall c :: 0 <= c < |r| ==> r[c] == u[c] - f * w[c]
    ensures Dot(r, v) == Dot(u, v) - Mul(f, Dot(w, v))
  {
    if |r| > 0 {
      DotCombine(r[1..], u[1..], f, w[1..], v[1..]);
      MulSubScaled(u[0], f, w[0], v[0]);
      assert r[0] == u[0] - f * w[0];
      MulAdd(f, Mul(w[0], v[0]), Dot(w[1..], v[1..]));
    }
  }

  /** `y` is a null vector of `m`: every row of `m` is orthogonal to it. */
  ghost predicate Kernel(m: Matrix, y: Vector) {
    forall r :: 0 <= r < |m| ==> |m[r]| == |y| && Dot(m[r], y) == 0.0
  }

  /** `m1` and `m2` have the same null vectors of length `cols`. */
  ghost predicate SameKernel(m1: Matrix, m2: Matrix, cols: nat) {
    forall y :: |y| == cols ==> (Kernel(m1, y) <==> Kernel(m2, y))
  }

  ghost predicate NonZero(y: Vector) {
    exists c :: 0 <= c < |y| && y[c] != 0.0
  }

  /** The square matrix `A` sends some nonzero vector to zero. */
  ghost predicate Singular(A: Matrix) {
    exists y :: |y| == |A| && NonZero(y) && Kernel(A, y)
  }

  /** `x` solves the system A·x = b. */
  ghost predicate Solves(A: Matrix, b: Vector, x: Vector)
    requires |b| == |A|
  {
    forall r :: 0 <= r < |A| ==> |A[r]| == |x| && Dot(A[r], x) == b[r]
  }

  /** The augmented matrix [A | b]: row r of A followed by b[r]. */
  function Augmented(A: Matrix, b: Vector): (m: Matrix)
    requires |b| == |A|
  {
    seq(|A|, r requires 0 <= r < |A| => A[r] + [b[r]])
  }

  /** Having the same null vectors is an equivalence; this chains two steps from a common middle. */
  lemma SameKernelChain(m1: Matrix, m2: Matrix, m3: Matrix, cols: nat)
    requires SameKernel(m2, m1, cols) && SameKernel(m2, m3, cols)
    ensures SameKernel(m1, m3, cols)
  {
  }

  /** x solves A·x = b exactly when (x, −1) is a null vector of [A | b]. */
  lemma AugmentedSolves(A: Matrix, b: Vector, x: Vector)
    requires IsMatrix(A, |b|, |x|)
    ensures Kernel(Augmented(A, b), x + [-1.0]) <==> Solves(A, b, x)
  {
    forall r | 0 <= r < |A|
      ensures Dot(Augmented(A, b)[r], x + [-1.0]) == Dot(A[r], x) - b[r]
    {
      DotAppendNegated(A[r], x, b[r]);
    }
  }

  /** y is a null vector of A exactly when (y, 0) is a null vector of [A | b]. */
  lemma AugmentedKernel(A: Matrix, b: Vector, y: Vector)
    requires IsMatrix(A, |b|, |y|)
    ensures Kernel(Augmented(A, b), y + [0.0]) <==> Kernel(A, y)
  {
    forall r | 0 <= r < |A|
      ensures Dot(Augmented(A, b)[r], y + [0.0]) == Dot(A[r], y)
    {
      DotAppend(A[r], y, b[r], 0.0);
      MulZero(b[r], 0.0);
    }
  }

  /** `m` with rows i and p exchanged. */
  function Swapped(m: Matrix, i: nat, p: nat): Matrix
    requires i < |m| && p < |m|
  {
    m[i := m[p]][p := m[i]]
  }

  /** Row `u` with `f` times row `w` subtracted from column `from` on. */
  function SubtractedRow(u: Vector, f: real, w: Vector, from: nat): Vector
    requires |u| == |w|
  {
    seq(|u|, c requires 0 <= c < |u| => if c < from then u[c] else u[c] - f * w[c])
  }

  /** Entry c of a subtracted row. */
  lemma SubtractedRowEntry(u: Vector, f: real, w: Vector, from: nat, c: nat)
    requires |u| == |w| && c < |u|
    ensures SubtractedRow(u, f, w, from)[c] == if c < from then u[c] else u[c] - f * w[c]
  {
  }

  /** Every row of `m` has as many entries as row i, and row i has a nonzero entry i. */
  predicate PivotReady(m: Matrix, i: nat) {
    i < |m| && i < |m[i]| && m[i][i] != 0.0 && forall r :: 0 <= r < |m| ==> |m[r]| == |m[i]|
  }

  /**
   * `m` with, from each row r with i < r < j, the multiple m[r][i] / m[i][i]
   * of row i subtracted (on columns i and after); other rows as in `m`.
   */
  function EliminatedUpTo(m: Matrix, i: nat, j: nat): Matrix
    requires PivotReady(m, i)
  {
    seq(|m|, r requires 0 <= r < |m| =>
      if i < r < j then SubtractedRow(m[r], m[r][i] / m[i][i], m[i], i) else m[r])
  }

  /** Column i cleared below row i. */
  function Eliminated(m: Matrix, i: nat): Matrix
    requires PivotReady(m, i)
  {
    EliminatedUpTo(m, i, |m|)
  }

  /**
   * Clearing column i touches only the rows below the pivot, and there only
   * columns i and after: column i becomes zero below row i.
   */
  lemma EliminationFrame(m: Matrix, i: nat)
    requires PivotReady(m, i)
    ensures |Eliminated(m, i)| == |m|
    ensures forall r :: 0 <= r < |m| ==> |Eliminated(m, i)[r]| == |m[r]|
    ensures forall r :: 0 <= r <= i ==> Eliminated(m, i)[r] == m[r]
    ensures forall r, c :: i < r < |m| && 0 <= c < i ==> Eliminated(m, i)[r][c] == m[r][c]
    ensures forall r :: i < r < |m| ==> Eliminated(m, i)[r][i] == 0.0
  {
  }

  /** Exchanging two rows keeps the null vectors. */
  lemma SwapKeepsKernel(m: Matrix, i: nat, p: nat, cols: nat)
    requires i < |m| && p < |m|
    ensures SameKernel(m, Swapped(m, i, p), cols)
  {
    var s := Swapped(m, i, p);
    forall y | |y| == cols
      ensures Kernel(m, y) <==> Kernel(s, y)
    {
      if Kernel(m, y) {
        forall r | 0 <= r < |s|
          ensures |s[r]| == |y| && Dot(s[r], y) == 0.0
        {
          var o := if r == i then p else if r == p then i else r;
          assert s[r] == m[o];
        }
      }
      if Kernel(s, y) {
        forall r | 0 <= r < |m|
          ensures |m[r]| == |y| && Dot(m[r], y) == 0.0
        {
          var o := if r == i then p else if r == p then i else r;
          assert m[r] == s[o];
        }
      }
    }
  }

  /** Subtracting a multiple of row i from another row keeps the null vectors, when row i is zero before column `from`. */
  lemma {:induction false} SubtractedRowDot(u: Vector, f: real, w: Vector, from: nat, y: Vector)
    requires |u| == |w| == |y|
    requires forall c :: 0 <= c < from && c < |w| ==> w[c] == 0.0
    ensures Dot(SubtractedRow(u, f, w, from), y) == Dot(u, y) - Mul(f, Dot(w, y))
  {
    var s := SubtractedRow(u, f, w, from);
    forall c | 0 <= c < |s|
      ensures s[c] == u[c] - f * w[c]
    {
      if c < from {
        assert w[c] == 0.0;
      }
    }
    DotCombine(s, u, f, w, y);
  }

  /** Subtracting multiples of row i from the rows below it keeps the null vectors. */
  lemma EliminationKeepsKernel(m: Matrix, i: nat, cols: nat)
    requires PivotReady(m, i) && |m[i]| == cols
    requires forall c :: 0 <= c < i ==> m[i][c] == 0.0
    ensures SameKernel(m, Eliminated(m, i), cols)
  {
    var e := Eliminated(m, i);
    forall y | |y| == cols
      ensures Kernel(m, y) <==> Kernel(e, y)
    {
      forall r | 0 <= r < |m|
        ensures Dot(e[r], y) == if r <= i then Dot(m[r], y) else Dot(m[r], y) - Mul(m[r][i] / m[i][i], Dot(m[i], y))
      {
        if r > i {
          SubtractedRowDot(m[r], m[r][i] / m[i][i], m[i], i, y);
        }
      }
      if Kernel(m, y) {
        forall r | i < r < |m|
          ensures Mul(m[r][i] / m[i][i], Dot(m[i], y)) == 0.0
        {
          MulZero(m[r][i] / m[i][i], Dot(m[i], y));
        }
        assert forall r :: 0 <= r < |e| ==> |e[r]| == |y| && Dot(e[r], y) == 0.0;
      }
      if Kernel(e, y) {
        assert Dot(e[i], y) == 0.0;
        forall r | i < r < |m|
          ensures Mul(m[r][i] / m[i][i], Dot(m[i], y)) == 0.0
        {
          MulZero(m[r][i] / m[i][i], Dot(m[i], y));
        }
        assert forall r :: 0 <= r < |m| ==> |m[r]| == |y| && Dot(m[r], y) == 0.0;
      }
    }
  }

  /** The dot product is additive in its second argument. */
  lemma {:induction false} DotAddRight(u: Vector, x: Vector, z: Vector, w: Vector)
    requires |u| == |x| == |z| == |w|
    requires forall c :: 0 <= c < |w| ==> w[c] == x[c] + z[c]
    ensures Dot(u, w) == Dot(u, x) + Dot(u, z)
  {
    if |u| > 0 {
      DotAddRight(u[1..], x[1..], z[1..], w[1..]);
      assert w[0] == x[0] + z[0];
      MulAdd(u[0], x[0], z[0]);
    }
  }

  /** A·x: entry r is row r of A dotted with x. */
  function Apply(A: Matrix, x: Vector): (y: Vector)
    requires forall r :: 0 <= r < |A| ==> |A[r]| == |x|
    ensures |y| == |A|
    ensures forall r :: 0 <= r < |A| ==> y[r] == Dot(A[r], x)
  {
    seq(|A|, r requires 0 <= r < |A| => Dot(A[r], x))
  }

  /** c·w entry by entry. */
  function Scaled(c: real, w: Vector): (v: Vector)
    ensures |v| == |w|
    ensures forall k :: 0 <= k < |w| ==> v[k] == Mul(c, w[k])
  {
    seq(|w|, k requires 0 <= k < |w| => Mul(c, w[k]))
  }

  lemma MulAssoc(c: real, a: real, b: real)
    ensures Mul(Mul(c, a), b) == Mul(c, Mul(a, b))
  {
  }

  /** Scaling the first vector scales the dot product. */
  lemma {:induction false} DotScaled(c: real, w: Vector, x: Vector)
    requires |w| == |x|
    ensures Dot(Scaled(c, w), x) == Mul(c, Dot(w, x))
  {
    if |w| > 0 {
      DotScaled(c, w[1..], x[1..]);
      assert Scaled(c, w)[1..] == Scaled(c, w[1..]);
      MulAssoc(c, w[0], x[0]);
      MulAdd(c, Mul(w[0], x[0]), Dot(w[1..], x[1..]));
    }
  }

  /** The dot product is additive in its first argument. */
  lemma DotAddLeft(u: Vector, z: Vector, w: Vector, x: Vector)
    requires |u| == |z| == |w| == |x|
    requires forall c :: 0 <= c < |w| ==> w[c] == u[c] + z[c]
    ensures Dot(w, x) == Dot(u, x) + Dot(z, x)
  {
    DotSymmetric(w, x);
    DotSymmetric(u, x);
    DotSymmetric(z, x);
    DotAddRight(x, u, z, w);
  }

  /**
   * If x solves A·x = b and no other vector does, A is not singular: a
   * nonzero null vector z would make x + z a second solution.
   */
  lemma UniqueSolutionNonsingular(A: Matrix, b: Vector, x: Vector)
    requires IsSquare(A, |b|) && |x| == |b| && Solves(A, b, x)
    requires forall y :: |y| == |b| && Solves(A, b, y) ==> y == x
    ensures !Singular(A)
  {
    if Singular(A) {
      var z :| |z| == |A| && NonZero(z) && Kernel(A, z);
      var c :| 0 <= c < |z| && z[c] != 0.0;
      var w := seq(|x|, k requires 0 <= k < |x| => x[k] + z[k]);
      assert w[c] != x[c];
      forall r | 0 <= r < |A|
        ensures |A[r]| == |w| && Dot(A[r], w) == b[r]
      {
        DotAddRight(A[r], x, z, w);
      }
      assert Solves(A, b, w);
      assert false;
    }
  }
}
