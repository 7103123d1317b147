/** Vectors, square matrices as sequences of rows, and the few facts about
    dot products that the ridge kernel needs. A row-major buffer is read
    through `At`, which gives 0 outside the buffer like the kernel does. */
module LinearAlgebra {

  type Vector = seq<real>
  type Matrix = seq<Vector>

  /** The first n terms of the dot product of u and v. */
  function Dot(u: Vector, v: Vector, n: nat): real
    requires n <= |u| && n <= |v|
  {
    if n == 0 then 0.0 else Dot(u, v, n - 1) + u[n - 1] * v[n - 1]
  }

  ghost predicate Square(m: Matrix, dim: nat) {
    |m| == dim && forall i :: 0 <= i < dim ==> |m[i]| == dim
  }

  ghost predicate Symmetric(m: Matrix, dim: nat)
    requires Square(m, dim)
  {
    forall i, j :: 0 <= i < dim && 0 <= j < dim ==> m[i][j] == m[j][i]
  }

  /** Column k of m. */
  ghost function Column(m: Matrix, dim: nat, k: nat): (c: Vector)
    requires Square(m, dim) && k < dim
  {
    seq(dim, i requires 0 <= i < dim => m[i][k])
  }

  /** The product of m and v. */
  ghost function Apply(m: Matrix, dim: nat, v: Vector): (r: Vector)
    requires Square(m, dim) && |v| == dim
  {
    seq(dim, i requires 0 <= i < dim => Dot(m[i], v, dim))
  }

  /** The product of the transpose of m and v. */
  ghost function ApplyTransposed(m: Matrix, dim: nat, v: Vector): (r: Vector)
    requires Square(m, dim) && |v| == dim
  {
    seq(dim, k requires 0 <= k < dim => Dot(Column(m, dim, k), v, dim))
  }

  /** The quadratic form vᵀ m v. */
  ghost function Quadratic(m: Matrix, dim: nat, v: Vector): real
    requires Square(m, dim) && |v| == dim
  {
    Dot(v, Apply(m, dim, v), dim)
  }

  ghost function Plus(u: Vector, v: Vector): Vector
    requires |u| == |v|
  {
    seq(|u|, i requires 0 <= i < |u| => u[i] + v[i])
  }

  ghost function Minus(u: Vector, v: Vector): Vector
    requires |u| == |v|
  {
    seq(|u|, i requires 0 <= i < |u| => u[i] - v[i])
  }

  function Times(x: real, y: real): (r: real)
    ensures x > 0.0 && y > 0.0 ==> r > 0.0
    ensures x < 0.0 && y < 0.0 ==> r > 0.0
  {
    x * y
  }

  lemma QuotientBetween(w: real, m: real, lo: real, hi: real)
    requires m > 0.0 && Times(m, lo) <= w <= Times(m, hi)
    ensures lo <= w / m <= hi
  {
    var q := w / m;
    assert Times(m, q) == w;
    var below, above := Times(m, lo - q), Times(m, q - hi);
    assert below == Times(m, lo) - w && above == w - Times(m, hi);
  }

  function Squared(x: real): (r: real)
    ensures r >= 0.0
    ensures x != 0.0 ==> r > 0.0
  {
    Times(x, x)
  }

  /** `sqrt` is the exact square root of every number that is not negative. */
  ghost predicate ExactSqrt(sqrt: real -> real) {
    forall x: real :: x >= 0.0 ==> sqrt(x) >= 0.0 && sqrt(x) * sqrt(x) == x
  }

  ghost predicate IsZero(v: Vector) {
    forall i :: 0 <= i < |v| ==> v[i] == 0.0
  }

  // --- Dot products ---------------------------------------------------------

  /** A dot product reads only the first n entries. */
  lemma {:induction false} DotSame(u: Vector, v: Vector, u': Vector, v': Vector, n: nat)
    requires n <= |u| && n <= |v| && n <= |u'| && n <= |v'|
    requires forall i :: 0 <= i < n ==> u[i] == u'[i] && v[i] == v'[i]
    ensures Dot(u, v, n) == Dot(u', v', n)
  {
    if n > 0 {
      DotSame(u, v, u', v', n - 1);
    }
  }

  /** The last term of a dot product, for proofs that hide `Dot`. */
  lemma DotLast(u: Vector, v: Vector, n: nat)
    requires n < |u| && n < |v|
    ensures Dot(u, v, n + 1) == Dot(u, v, n) + u[n] * v[n]
  {
  }

  lemma DotEmpty(u: Vector, v: Vector)
    ensures Dot(u, v, 0) == 0.0
  {
  }

  lemma {:induction false} DotCommutes(u: Vector, v: Vector, n: nat)
    requires n <= |u| && n <= |v|
    ensures Dot(u, v, n) == Dot(v, u, n)
  {
    if n > 0 {
      DotCommutes(u, v, n - 1);
    }
  }

  /** Terms past m contribute nothing when one factor is 0 there. */
  lemma {:induction false} DotTail(u: Vector, v: Vector, m: nat, n: nat)
    requires m <= n <= |u| && n <= |v|
    requires forall i :: m <= i < n ==> u[i] == 0.0 || v[i] == 0.0
    ensures Dot(u, v, n) == Dot(u, v, m)
    decreases n
  {
    if m < n {
      DotTail(u, v, m, n - 1);
    }
  }

  /** Linearity in the second factor: w = a·u + v entrywise. */
  lemma {:induction false} DotLinear(x: Vector, a: real, u: Vector, v: Vector, w: Vector, n: nat)
    requires n <= |x| && n <= |u| && n <= |v| && n <= |w|
    requires forall i :: 0 <= i < n ==> w[i] == a * u[i] + v[i]
    ensures Dot(x, w, n) == a * Dot(x, u, n) + Dot(x, v, n)
  {
    if n > 0 {
      DotLinear(x, a, u, v, w, n - 1);
      var p, s := x[n - 1], u[n - 1];
      assert p * w[n - 1] == a * (p * s) + p * v[n - 1];
      assert a * (Dot(x, u, n - 1) + p * s) == a * Dot(x, u, n - 1) + a * (p * s);
    }
  }

  /** A sum of squares is not negative, and it is 0 only for the zero vector. */
  lemma {:induction false} DotSquare(v: Vector, n: nat)
    requires n <= |v|
    ensures Dot(v, v, n) >= 0.0
    ensures forall i :: 0 <= i < n ==> v[i] * v[i] <= Dot(v, v, n)
  {
    if n > 0 {
      DotSquare(v, n - 1);
      assert v[n - 1] * v[n - 1] >= 0.0;
    }
  }

  // --- Matrices ---------------------------------------------------------------

  /** The sum over rows i < n of v[i] times row i of m, entry k. */
  ghost function Combination(m: Matrix, dim: nat, v: Vector, n: nat): (w: Vector)
    requires Square(m, dim) && |v| == dim && n <= dim
    ensures |w| == dim
  {
    seq(dim, k requires 0 <= k < dim => Dot(Column(m, dim, k), v, n))
  }

  lemma CombinationStep(m: Matrix, dim: nat, v: Vector, n: nat, k: nat)
    requires Square(m, dim) && |v| == dim && n < dim && k < dim
    ensures Combination(m, dim, v, n + 1)[k] == v[n] * m[n][k] + Combination(m, dim, v, n)[k]
    ensures Combination(m, dim, v, 0)[k] == 0.0
  {
    DotLast(Column(m, dim, k), v, n);
  }

  lemma {:induction false} CombinationOfRows(m: Matrix, dim: nat, c: Vector, v: Vector, p: Vector, n: nat)
    requires Square(m, dim) && |c| == dim && |v| == dim && |p| == dim && n <= dim
    requires forall i :: 0 <= i < n ==> p[i] == Dot(m[i], c, dim)
    ensures Dot(p, v, n) == Dot(c, Combination(m, dim, v, n), dim)
  {
    hide Dot, Combination, Column;
    var w := Combination(m, dim, v, n);
    if n == 0 {
      forall k: nat | k < dim
        ensures w[k] == 0.0
      {
        CombinationStep(m, dim, v, 0, k);
      }
      DotTail(c, w, 0, dim);
      DotEmpty(c, w);
      DotEmpty(p, v);
    } else {
      CombinationOfRows(m, dim, c, v, p, n - 1);
      var w' := Combination(m, dim, v, n - 1);
      forall k: nat | k < dim
        ensures w[k] == v[n - 1] * m[n - 1][k] + w'[k]
      {
        CombinationStep(m, dim, v, n - 1, k);
      }
      DotLast(p, v, n - 1);
      DotLinear(c, v[n - 1], m[n - 1], w', w, dim);
      DotCommutes(c, m[n - 1], dim);
    }
  }

  /** Moving a matrix across a dot product: (m·c)·v = c·(mᵀ·v). */
  lemma Adjoint(m: Matrix, dim: nat, c: Vector, v: Vector)
    requires Square(m, dim) && |c| == dim && |v| == dim
    ensures Dot(Apply(m, dim, c), v, dim) == Dot(c, ApplyTransposed(m, dim, v), dim)
  {
    CombinationOfRows(m, dim, c, v, Apply(m, dim, c), dim);
    assert Combination(m, dim, v, dim) == ApplyTransposed(m, dim, v);
  }

  lemma ApplyMinus(m: Matrix, dim: nat, u: Vector, v: Vector)
    requires Square(m, dim) && |u| == dim && |v| == dim
    ensures Apply(m, dim, Minus(u, v)) == Minus(Apply(m, dim, u), Apply(m, dim, v))
  {
    forall i | 0 <= i < dim
      ensures Dot(m[i], Minus(u, v), dim) == Dot(m[i], u, dim) - Dot(m[i], v, dim)
    {
      DotLinear(m[i], -1.0, v, u, Minus(u, v), dim);
    }
  }

  // --- Factors: a matrix that is l·lᵀ ---------------------------------------

  /** a is l·lᵀ. */
  ghost predicate IsGramOf(a: Matrix, l: Matrix, dim: nat)
    requires Square(a, dim) && Square(l, dim)
  {
    forall i, j :: 0 <= i < dim && 0 <= j < dim ==> a[i][j] == Dot(l[i], l[j], dim)
  }

  /** Lower triangular with a positive diagonal. */
  ghost predicate IsLowerFactor(l: Matrix, dim: nat)
    requires Square(l, dim)
  {
    && (forall i, j :: 0 <= i < j < dim ==> l[i][j] == 0.0)
    && (forall i :: 0 <= i < dim ==> l[i][i] > 0.0)
  }

  /** (l·lᵀ)·v = l·(lᵀ·v). */
  lemma GramApply(a: Matrix, l: Matrix, dim: nat, v: Vector)
    requires Square(a, dim) && Square(l, dim) && |v| == dim
    requires IsGramOf(a, l, dim)
    ensures Apply(a, dim, v) == Apply(l, dim, ApplyTransposed(l, dim, v))
  {
    var t := ApplyTransposed(l, dim, v);
    forall i | 0 <= i < dim
      ensures Dot(a[i], v, dim) == Dot(l[i], t, dim)
    {
      var p := Apply(l, dim, l[i]);
      forall j | 0 <= j < dim
        ensures a[i][j] == p[j]
      {
        DotCommutes(l[i], l[j], dim);
      }
      DotSame(a[i], v, p, v, dim);
      Adjoint(l, dim, l[i], v);
    }
  }

  /** The quadratic form of l·lᵀ is a sum of squares. */
  lemma GramQuadratic(a: Matrix, l: Matrix, dim: nat, v: Vector)
    requires Square(a, dim) && Square(l, dim) && |v| == dim
    requires IsGramOf(a, l, dim)
    ensures var t := ApplyTransposed(l, dim, v); Quadratic(a, dim, v) == Dot(t, t, dim)
  {
    var t := ApplyTransposed(l, dim, v);
    GramApply(a, l, dim, v);
    DotCommutes(v, Apply(l, dim, t), dim);
    Adjoint(l, dim, t, v);
  }

  /** The pivot bound: for v that is 0 after k, the form is at least (l[k][k]·v[k])². */
  lemma PivotBound(a: Matrix, l: Matrix, dim: nat, v: Vector, k: nat)
    requires Square(a, dim) && Square(l, dim) && |v| == dim && k < dim
    requires IsGramOf(a, l, dim) && IsLowerFactor(l, dim)
    requires forall i :: k < i < dim ==> v[i] == 0.0
    ensures Quadratic(a, dim, v) >= Squared(l[k][k] * v[k])
  {
    GramQuadratic(a, l, dim, v);
    var t := ApplyTransposed(l, dim, v);
    var c := Column(l, dim, k);
    DotTail(c, v, k + 1, dim);
    DotTail(c, v, 0, k);
    assert t[k] == l[k][k] * v[k];
    DotSquare(t, dim);
  }

  /** A matrix with such a factor is positive definite. */
  lemma PositiveDefinite(a: Matrix, l: Matrix, dim: nat, v: Vector)
    requires Square(a, dim) && Square(l, dim) && |v| == dim
    requires IsGramOf(a, l, dim) && IsLowerFactor(l, dim)
    requires !IsZero(v)
    ensures Quadratic(a, dim, v) > 0.0
  {
    var k := LastNonZero(v, dim);
    PivotBound(a, l, dim, v, k);
    NonZeroProduct(l[k][k], v[k]);
  }

  lemma NonZeroProduct(x: real, y: real)
    requires x > 0.0 && y != 0.0
    ensures x * y != 0.0
  {
    assert if y > 0.0 then x * y > 0.0 else x * y < 0.0;
  }

  lemma LastNonZero(v: Vector, n: nat) returns (k: nat)
    requires n <= |v|
    requires exists i :: 0 <= i < n && v[i] != 0.0
    ensures k < n && v[k] != 0.0
    ensures forall i :: k < i < n ==> v[i] == 0.0
  {
    if v[n - 1] != 0.0 {
      k := n - 1;
    } else {
      k := LastNonZero(v, n - 1);
    }
  }

  /** A positive definite system has at most one solution. */
  lemma UniqueSolution(a: Matrix, l: Matrix, dim: nat, x: Vector, y: Vector)
    requires Square(a, dim) && Square(l, dim) && |x| == dim && |y| == dim
    requires IsGramOf(a, l, dim) && IsLowerFactor(l, dim)
    requires Apply(a, dim, x) == Apply(a, dim, y)
    ensures x == y
  {
    var d := Minus(x, y);
    if !IsZero(d) {
      PositiveDefinite(a, l, dim, d);
      ApplyMinus(a, dim, x, y);
      DotTail(d, Apply(a, dim, d), 0, dim);
      assert false;
    }
    assert forall i :: 0 <= i < dim ==> x[i] - y[i] == d[i] == 0.0;
  }
}
