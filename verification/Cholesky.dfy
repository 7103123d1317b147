/** The Cholesky solver of the ridge kernel, over the reals. The kernel's one
    function runs three loop nests; each is a method here and `SolveSpd` runs
    them in order. */
module Cholesky {
  import opened Common
  import opened LinearAlgebra

  /** A pivot at or below this makes the matrix not numerically positive definite. */
  const PIVOT_TOLERANCE: real := 0.000000000001

  /** Entry (row, col) of a row-major buffer; 0 outside the buffer. */
  function At(m: seq<real>, dim: nat, row: nat, col: nat): real {
    if row * dim + col < |m| then m[row * dim + col] else 0.0
  }

  function Entry(v: seq<real>, i: nat): real {
    if i < |v| then v[i] else 0.0
  }

  ghost function RowsOf(m: seq<real>, dim: nat): (r: Matrix)
    ensures Square(r, dim)
  {
    seq(dim, i requires 0 <= i < dim => seq(dim, j requires 0 <= j < dim => At(m, dim, i, j)))
  }

  /** The symmetric matrix of the lower triangle, the only part the solver reads. */
  ghost function Reflected(m: seq<real>, dim: nat): (r: Matrix)
    ensures Square(r, dim) && Symmetric(r, dim)
  {
    seq(dim, i requires 0 <= i < dim => seq(dim, j requires 0 <= j < dim =>
      if j <= i then At(m, dim, i, j) else At(m, dim, j, i)))
  }

  ghost function VectorOf(v: seq<real>, dim: nat): (r: Vector)
    ensures |r| == dim
  {
    seq(dim, i requires 0 <= i < dim => Entry(v, i))
  }

  /** v is 1 at k and 0 after k. */
  ghost predicate UnitAt(v: Vector, dim: nat, k: nat) {
    |v| == dim && k < dim && v[k] == 1.0 && forall i :: k < i < dim ==> v[i] == 0.0
  }

  /** The quadratic form is above the tolerance on every vector that is 1 at
      some k and 0 after it: what "numerically positive definite" means here. */
  ghost predicate NumericallyPositive(a: Matrix, dim: nat)
    requires Square(a, dim)
  {
    forall k: nat, v :: UnitAt(v, dim, k) ==> Quadratic(a, dim, v) > PIVOT_TOLERANCE
  }

  /** One equation is solvable exactly when its coefficient is above 10^-12. */
  lemma OneByOne(x: real)
    ensures NumericallyPositive([[x]], 1) <==> x > 0.000000000001
  {
    forall v | UnitAt(v, 1, 0)
      ensures v == [1.0] && Quadratic([[x]], 1, v) == x
    {
      QuadraticOfOne(x);
    }
    assert UnitAt([1.0], 1, 0);
  }

  lemma QuadraticOfOne(x: real)
    ensures Quadratic([[x]], 1, [1.0]) == x
  {
    var a, v := [[x]], [1.0];
    assert Dot(a[0], v, 1) == Dot(a[0], v, 0) + x * 1.0;
    assert Apply(a, 1, v) == [x];
    assert Dot(v, [x], 1) == Dot(v, [x], 0) + 1.0 * x;
  }

  // --- Buffers -----------------------------------------------------------------

  lemma RowsAt(m: seq<real>, dim: nat, row: nat, col: nat)
    requires row < dim && col < dim
    ensures RowsOf(m, dim)[row][col] == At(m, dim, row, col)
  {
  }

  lemma IndexInRange(dim: nat, row: nat, col: nat)
    requires row < dim && col < dim
    ensures row * dim + col < dim * dim
  {
    assert row * dim <= (dim - 1) * dim;
  }

  lemma IndexOrder(dim: nat, row: nat, col: nat, i: nat, j: nat)
    requires col < dim && row < i
    ensures row * dim + col < i * dim + j
  {
    assert (row + 1) * dim <= i * dim;
  }

  lemma BufferUpdate(m: seq<real>, dim: nat, row: nat, col: nat, value: real)
    requires |m| == dim * dim && row < dim && col < dim
    ensures row * dim + col < |m|
    ensures var r := RowsOf(m, dim);
      RowsOf(m[row * dim + col := value], dim) == r[row := r[row][col := value]]
  {
    IndexInRange(dim, row, col);
    var m' := m[row * dim + col := value];
    var r, r' := RowsOf(m, dim), RowsOf(m', dim);
    forall i: nat | i < dim
      ensures r'[i] == r[row := r[row][col := value]][i]
    {
      forall j: nat | j < dim
        ensures r'[i][j] == if i == row && j == col then value else r[i][j]
      {
        IndexInRange(dim, i, j);
        if row < i {
          IndexOrder(dim, row, col, i, j);
        } else if i < row {
          IndexOrder(dim, i, j, row, col);
        }
      }
    }
  }

  // --- Factorisation -------------------------------------------------------------

  ghost predicate UpperZero(l: Matrix, dim: nat)
    requires Square(l, dim)
  {
    forall i, j :: 0 <= i < j < dim ==> l[i][j] == 0.0
  }

  /** Entry (i, j) of a is the product of rows i and j of l up to column j. */
  ghost predicate EntryDone(a: Matrix, l: Matrix, dim: nat, i: nat, j: nat)
    requires Square(a, dim) && Square(l, dim) && j <= i < dim
  {
    a[i][j] == Dot(l[i], l[j], j + 1)
  }

  ghost predicate PivotDone(l: Matrix, dim: nat, i: nat)
    requires Square(l, dim) && i < dim
  {
    l[i][i] > 0.0 && l[i][i] * l[i][i] > PIVOT_TOLERANCE
  }

  /** The first n rows of l are those of the factor of a. */
  ghost predicate Factored(a: Matrix, l: Matrix, dim: nat, n: nat)
    requires Square(a, dim) && Square(l, dim) && n <= dim
  {
    && UpperZero(l, dim)
    && (forall i: nat :: i < n ==> PivotDone(l, dim, i))
    && (forall i: nat, j: nat :: j <= i < n ==> EntryDone(a, l, dim, i, j))
  }

  /** Row n of l is right before column c and 0 from there; c <= n. */
  ghost predicate RowStarted(a: Matrix, l: Matrix, dim: nat, n: nat, c: nat)
    requires Square(a, dim) && Square(l, dim) && c <= n < dim
  {
    && (forall j: nat :: j < c ==> EntryDone(a, l, dim, n, j))
    && (forall j :: c <= j < dim ==> l[n][j] == 0.0)
  }

  ghost predicate RowsZero(l: Matrix, dim: nat, n: nat)
    requires Square(l, dim)
  {
    forall i, j :: n <= i < dim && 0 <= j < dim ==> l[i][j] == 0.0
  }

  /** One entry of row n is filled in. */
  lemma EntryStep(a: Matrix, l: Matrix, dim: nat, n: nat, c: nat, value: real)
    requires Square(a, dim) && Square(l, dim) && c < n < dim
    requires Factored(a, l, dim, n) && RowStarted(a, l, dim, n, c) && RowsZero(l, dim, n + 1)
    requires value * l[c][c] == a[n][c] - Dot(l[n], l[c], c)
    ensures var l' := l[n := l[n][c := value]];
      Factored(a, l', dim, n) && RowStarted(a, l', dim, n, c + 1) && RowsZero(l', dim, n + 1)
  {
    hide Dot;
    var l' := l[n := l[n][c := value]];
    RowsKept(a, l, l', dim, n);
    forall j: nat | j <= c
      ensures EntryDone(a, l', dim, n, j)
    {
      if j < c {
        assert EntryDone(a, l, dim, n, j);
        DotSame(l'[n], l'[j], l[n], l[j], j + 1);
      } else {
        DotSame(l'[n], l'[c], l[n], l[c], c);
        DotLast(l'[n], l'[c], c);
      }
    }
  }

  lemma NewDiagonal(a: Matrix, l: Matrix, dim: nat, n: nat, value: real)
    requires Square(a, dim) && Square(l, dim) && n < dim
    requires value > 0.0 && value * value > PIVOT_TOLERANCE
    requires value * value == a[n][n] - Dot(l[n], l[n], n)
    ensures var l' := l[n := l[n][n := value]];
      PivotDone(l', dim, n) && EntryDone(a, l', dim, n, n)
  {
    hide Dot;
    var r := l[n][n := value];
    DotSame(r, r, l[n], l[n], n);
    DotLast(r, r, n);
  }

  /** The diagonal entry completes row n. */
  lemma DiagonalStep(a: Matrix, l: Matrix, dim: nat, n: nat, value: real)
    requires Square(a, dim) && Square(l, dim) && n < dim
    requires Factored(a, l, dim, n) && RowStarted(a, l, dim, n, n) && RowsZero(l, dim, n + 1)
    requires value > 0.0 && value * value > PIVOT_TOLERANCE
    requires value * value == a[n][n] - Dot(l[n], l[n], n)
    ensures var l' := l[n := l[n][n := value]];
      Factored(a, l', dim, n + 1) && RowsZero(l', dim, n + 1)
  {
    hide Dot;
    hide PivotDone;
    var l' := l[n := l[n][n := value]];
    RowsKept(a, l, l', dim, n);
    NewDiagonal(a, l, dim, n, value);
    forall j: nat | j < n
      ensures EntryDone(a, l', dim, n, j)
    {
      assert EntryDone(a, l, dim, n, j);
      DotSame(l'[n], l'[j], l[n], l[j], j + 1);
    }
  }

  /** Changing row n on or below the diagonal keeps the rows before it. */
  lemma RowsKept(a: Matrix, l: Matrix, l': Matrix, dim: nat, n: nat)
    requires Square(a, dim) && Square(l, dim) && Square(l', dim) && n < dim
    requires Factored(a, l, dim, n)
    requires forall i :: 0 <= i < dim && i != n ==> l'[i] == l[i]
    requires forall j :: n < j < dim ==> l'[n][j] == 0.0
    ensures Factored(a, l', dim, n)
  {
    forall i: nat, j: nat | j <= i < n
      ensures EntryDone(a, l', dim, i, j)
    {
      assert EntryDone(a, l, dim, i, j);
    }
    forall i: nat | i < n
      ensures PivotDone(l', dim, i)
    {
      assert PivotDone(l, dim, i);
    }
  }

  /** Back substitution exists: a vector v, 0 from n on, with (lᵀ·v)[k] = y[k] for k < n. */
  lemma {:induction false} BackSolution(l: Matrix, dim: nat, n: nat, y: Vector) returns (v: Vector)
    requires Square(l, dim) && n <= dim && |y| == dim
    requires UpperZero(l, dim) && forall i :: 0 <= i < n ==> l[i][i] > 0.0
    ensures |v| == dim && forall i :: n <= i < dim ==> v[i] == 0.0
    ensures forall k :: 0 <= k < n ==> Dot(Column(l, dim, k), v, n) == y[k]
  {
    if n == 0 {
      v := seq(dim, i => 0.0);
    } else {
      var top := y[n - 1] / l[n - 1][n - 1];
      var y' := seq(dim, k requires 0 <= k < dim => y[k] - l[n - 1][k] * top);
      var w := BackSolution(l, dim, n - 1, y');
      v := w[n - 1 := top];
      forall k | 0 <= k < n
        ensures Dot(Column(l, dim, k), v, n) == y[k]
      {
        var c := Column(l, dim, k);
        DotSame(c, v, c, w, n - 1);
        if k == n - 1 {
          DotTail(c, v, 0, n - 1);
          assert top * l[n - 1][n - 1] == y[n - 1];
        }
      }
    }
  }

  /** Entry (i, j) of a in terms of whole rows of l, away from the open pivot. */
  lemma EntryFull(a: Matrix, l: Matrix, dim: nat, p: nat, i: nat, j: nat)
    requires Square(a, dim) && Symmetric(a, dim) && Square(l, dim) && i <= p && j <= p < dim
    requires i < p || j < p
    requires Factored(a, l, dim, p) && RowStarted(a, l, dim, p, p)
    ensures a[i][j] == Dot(l[i], l[j], dim)
  {
    if j <= i {
      assert EntryDone(a, l, dim, i, j);
      DotTail(l[i], l[j], j + 1, dim);
    } else {
      assert EntryDone(a, l, dim, j, i);
      DotTail(l[j], l[i], i + 1, dim);
      DotCommutes(l[i], l[j], dim);
    }
  }

  /** A combination of the rows up to p whose last weight is 1 and which l
      sends to 0, so the form of a is the open pivot on it. */
  lemma PivotVector(l: Matrix, dim: nat, p: nat) returns (v: Vector)
    requires Square(l, dim) && p < dim && UpperZero(l, dim)
    requires forall i :: 0 <= i < p ==> l[i][i] > 0.0
    requires l[p][p] == 0.0
    ensures UnitAt(v, dim, p)
    ensures IsZero(Combination(l, dim, v, p + 1))
  {
    var y := seq(dim, k requires 0 <= k < dim => -l[p][k]);
    var w := BackSolution(l, dim, p, y);
    v := w[p := 1.0];
    forall k | 0 <= k < dim
      ensures Dot(Column(l, dim, k), v, p + 1) == 0.0
    {
      var c := Column(l, dim, k);
      if k < p {
        DotSame(c, v, c, w, p);
      } else {
        DotTail(c, v, 0, p + 1);
      }
    }
  }

  lemma LeadingRow(a: Matrix, l: Matrix, dim: nat, p: nat, i: nat, v: Vector)
    requires Square(a, dim) && Symmetric(a, dim) && Square(l, dim) && i <= p < dim
    requires Factored(a, l, dim, p) && RowStarted(a, l, dim, p, p)
    requires UnitAt(v, dim, p)
    requires IsZero(Combination(l, dim, v, p + 1))
    ensures Dot(a[i], v, dim) == if i == p then a[p][p] - Dot(l[p], l[p], p) else 0.0
  {
    hide Dot;
    var t := Combination(l, dim, v, p + 1);
    var g := seq(dim, j requires 0 <= j < dim => Dot(l[j], l[i], dim));
    CombinationOfRows(l, dim, l[i], v, g, p + 1);
    DotTail(l[i], t, 0, dim);
    DotTail(a[i], v, p + 1, dim);
    forall j: nat | j < p || (j == p && i < p)
      ensures a[i][j] == g[j]
    {
      EntryFull(a, l, dim, p, i, j);
      DotCommutes(l[i], l[j], dim);
    }
    DotSame(a[i], v, g, v, p);
    DotLast(a[i], v, p);
    DotLast(g, v, p);
    DotEmpty(l[i], t);
    DotTail(l[p], l[p], p, dim);
  }

  /** A pivot at or below the tolerance shows a vector on which the form is
      that pivot, so the matrix is not numerically positive definite. */
  lemma PivotWitness(a: Matrix, l: Matrix, dim: nat, p: nat)
    requires Square(a, dim) && Symmetric(a, dim) && Square(l, dim) && p < dim
    requires Factored(a, l, dim, p) && RowStarted(a, l, dim, p, p)
    requires a[p][p] - Dot(l[p], l[p], p) <= PIVOT_TOLERANCE
    ensures !NumericallyPositive(a, dim)
  {
    forall i: nat | i < p
      ensures l[i][i] > 0.0
    {
      assert PivotDone(l, dim, i);
    }
    var v := PivotVector(l, dim, p);
    var r := Apply(a, dim, v);
    forall i: nat | i <= p
      ensures r[i] == if i == p then a[p][p] - Dot(l[p], l[p], p) else 0.0
    {
      LeadingRow(a, l, dim, p, i, v);
    }
    DotTail(v, r, p + 1, dim);
    DotTail(v, r, 0, p);
    assert Quadratic(a, dim, v) == r[p];
  }

  /** a[row][col] less the products of the filled columns. */
  method OpenEntry(matrix: seq<real>, lower: array<real>, dim: nat, row: nat, col: nat)
    returns (sum: real)
    requires col <= row < dim
    ensures var l := RowsOf(lower[..], dim);
      sum == Reflected(matrix, dim)[row][col] - Dot(l[row], l[col], col)
  {
    hide At;
    ghost var l := RowsOf(lower[..], dim);
    sum := At(matrix, dim, row, col);
    for k := 0 to col
      invariant sum == At(matrix, dim, row, col) - Dot(l[row], l[col], k)
    {
      assert At(lower[..], dim, row, k) == l[row][k];
      assert At(lower[..], dim, col, k) == l[col][k];
      sum := sum - At(lower[..], dim, row, k) * At(lower[..], dim, col, k);
    }
  }

  /** Writes one entry of the lower factor. */
  method SetEntry(lower: array<real>, dim: nat, row: nat, col: nat, value: real)
    requires lower.Length == dim * dim && row < dim && col < dim
    modifies lower
    ensures var l := RowsOf(old(lower[..]), dim);
      RowsOf(lower[..], dim) == l[row := l[row][col := value]]
  {
    BufferUpdate(lower[..], dim, row, col, value);
    ghost var before := lower[..];
    lower[row * dim + col] := value;
    assert lower[..] == before[row * dim + col := value];
  }

  /** The entries of one row left of the diagonal. */
  method FactorRow(matrix: seq<real>, lower: array<real>, dim: nat, row: nat)
    requires lower.Length == dim * dim && row < dim
    requires Factored(Reflected(matrix, dim), RowsOf(lower[..], dim), dim, row)
    requires RowsZero(RowsOf(lower[..], dim), dim, row)
    modifies lower
    ensures Factored(Reflected(matrix, dim), RowsOf(lower[..], dim), dim, row)
    ensures RowStarted(Reflected(matrix, dim), RowsOf(lower[..], dim), dim, row, row)
    ensures RowsZero(RowsOf(lower[..], dim), dim, row + 1)
  {
    hide At;
    ghost var a := Reflected(matrix, dim);
    for col := 0 to row
      invariant Factored(a, RowsOf(lower[..], dim), dim, row)
      invariant RowStarted(a, RowsOf(lower[..], dim), dim, row, col)
      invariant RowsZero(RowsOf(lower[..], dim), dim, row + 1)
    {
      var sum := OpenEntry(matrix, lower, dim, row, col);
      ghost var l := RowsOf(lower[..], dim);
      var diagonal := At(lower[..], dim, col, col);
      assert diagonal == l[col][col] && PivotDone(l, dim, col);
      if diagonal == 0.0 {
        assert false;
      }
      EntryStep(a, l, dim, row, col, sum / diagonal);
      SetEntry(lower, dim, row, col, sum / diagonal);
    }
  }

  /** The root of an admissible pivot is an admissible diagonal entry. */
  lemma RootOfPivot(sqrt: real -> real, sum: real)
    requires ExactSqrt(sqrt) && sum > PIVOT_TOLERANCE
    ensures sqrt(sum) > 0.0 && sqrt(sum) * sqrt(sum) == sum
  {
  }

  /** The diagonal entry of one row; false at a pivot at or below the tolerance. */
  method FactorPivot(matrix: seq<real>, lower: array<real>, dim: nat, row: nat, sqrt: real -> real)
    returns (ok: bool)
    requires ExactSqrt(sqrt) && lower.Length == dim * dim && row < dim
    requires Factored(Reflected(matrix, dim), RowsOf(lower[..], dim), dim, row)
    requires RowStarted(Reflected(matrix, dim), RowsOf(lower[..], dim), dim, row, row)
    requires RowsZero(RowsOf(lower[..], dim), dim, row + 1)
    modifies lower
    ensures !ok ==> !NumericallyPositive(Reflected(matrix, dim), dim)
    ensures ok ==> Factored(Reflected(matrix, dim), RowsOf(lower[..], dim), dim, row + 1)
    ensures ok ==> RowsZero(RowsOf(lower[..], dim), dim, row + 1)
  {
    hide At;
    ghost var a := Reflected(matrix, dim);
    ghost var l := RowsOf(lower[..], dim);
    var sum := OpenEntry(matrix, lower, dim, row, row);
    if sum <= PIVOT_TOLERANCE {
      PivotWitness(a, l, dim, row);
      return false;
    }
    RootOfPivot(sqrt, sum);
    var value := sqrt(sum);
    DiagonalStep(a, l, dim, row, value);
    SetEntry(lower, dim, row, row, value);
    ok := true;
  }

  method ZeroBuffer(dim: nat) returns (lower: array<real>)
    ensures fresh(lower) && lower.Length == dim * dim
    ensures UpperZero(RowsOf(lower[..], dim), dim) && RowsZero(RowsOf(lower[..], dim), dim, 0)
  {
    lower := new real[dim * dim](_ => 0.0);
  }

  /** The lower factor as a row-major buffer, or `None` at a pivot at or below
      the tolerance. */
  method Factorize(matrix: seq<real>, dim: nat, sqrt: real -> real) returns (r: Option<seq<real>>)
    requires ExactSqrt(sqrt)
    ensures r.None? ==> !NumericallyPositive(Reflected(matrix, dim), dim)
    ensures r.Some? ==> Factored(Reflected(matrix, dim), RowsOf(r.value, dim), dim, dim)
  {
    var lower := ZeroBuffer(dim);
    for row := 0 to dim
      invariant Factored(Reflected(matrix, dim), RowsOf(lower[..], dim), dim, row)
      invariant RowsZero(RowsOf(lower[..], dim), dim, row)
    {
      FactorRow(matrix, lower, dim, row);
      var ok := FactorPivot(matrix, lower, dim, row, sqrt);
      if !ok {
        return None;
      }
    }
    r := Some(lower[..]);
  }

  // --- Substitutions ---------------------------------------------------------------

  ghost predicate HasPivots(l: Matrix, dim: nat)
    requires Square(l, dim)
  {
    forall i: nat :: i < dim ==> l[i][i] > 0.0
  }

  /** rhs[row] less the terms of the known part of v. */
  method OpenForward(lower: seq<real>, rhs: seq<real>, v: array<real>, dim: nat, row: nat)
    returns (sum: real)
    requires row < dim == v.Length
    ensures sum == Entry(rhs, row) - Dot(RowsOf(lower, dim)[row], v[..], row)
  {
    hide At;
    ghost var c := RowsOf(lower, dim)[row];
    sum := Entry(rhs, row);
    for k := 0 to row
      invariant sum == Entry(rhs, row) - Dot(c, v[..], k)
    {
      assert At(lower, dim, row, k) == c[k];
      sum := sum - At(lower, dim, row, k) * v[k];
    }
  }

  ghost predicate ForwardDone(l: Matrix, dim: nat, rhs: seq<real>, v: Vector, i: nat)
    requires Square(l, dim) && |v| == dim && i < dim
  {
    Dot(l[i], v, i + 1) == Entry(rhs, i)
  }

  /** Changing entry `row` of v changes the product by that entry's term. */
  lemma DotUpdate(c: Vector, v: Vector, n: nat, row: nat, value: real)
    requires row < n <= |c| && n <= |v|
    ensures Dot(c, v[row := value], n) == Dot(c, v, n) - c[row] * v[row] + c[row] * value
  {
    if row == n - 1 {
      DotSame(c, v[row := value], c, v, n - 1);
    } else {
      DotUpdate(c, v, n - 1, row, value);
    }
  }

  lemma ForwardNew(l: Matrix, dim: nat, rhs: seq<real>, row: nat, v: Vector, value: real)
    requires Square(l, dim) && |v| == dim && row < dim
    requires value * l[row][row] == Entry(rhs, row) - Dot(l[row], v, row)
    ensures ForwardDone(l, dim, rhs, v[row := value], row)
  {
    DotUpdate(l[row], v, row + 1, row, value);
  }

  lemma ForwardKept(l: Matrix, dim: nat, rhs: seq<real>, row: nat, v: Vector, v': Vector)
    requires Square(l, dim) && |v| == |v'| == dim && row < dim
    requires forall i :: 0 <= i < row ==> v'[i] == v[i]
    requires forall i: nat :: i < row ==> ForwardDone(l, dim, rhs, v, i)
    ensures forall i: nat :: i < row ==> ForwardDone(l, dim, rhs, v', i)
  {
    forall i: nat | i < row
      ensures ForwardDone(l, dim, rhs, v', i)
    {
      assert ForwardDone(l, dim, rhs, v, i);
      DotSame(l[i], v', l[i], v, i + 1);
    }
  }

  /** Forward substitution: l·y = rhs. */
  method ForwardSubstitute(lower: seq<real>, rhs: seq<real>, dim: nat) returns (y: seq<real>)
    requires UpperZero(RowsOf(lower, dim), dim) && HasPivots(RowsOf(lower, dim), dim)
    ensures |y| == dim
    ensures Apply(RowsOf(lower, dim), dim, y) == VectorOf(rhs, dim)
  {
    hide Dot;
    hide At;
    ghost var l := RowsOf(lower, dim);
    var forward := new real[dim](_ => 0.0);
    for row := 0 to dim
      invariant forall i: nat :: i < row ==> ForwardDone(l, dim, rhs, forward[..], i)
    {
      var sum := OpenForward(lower, rhs, forward, dim, row);
      var diagonal := At(lower, dim, row, row);
      assert diagonal == l[row][row];
      if diagonal == 0.0 {
        assert false;
      }
      ghost var before := forward[..];
      var value := sum / diagonal;
      assert value * l[row][row] == sum;
      forward[row] := value;
      assert forward[..] == before[row := value];
      ForwardKept(l, dim, rhs, row, before, forward[..]);
      ForwardNew(l, dim, rhs, row, before, value);
    }
    y := forward[..];
    forall i: nat | i < dim
      ensures Dot(l[i], y, dim) == Entry(rhs, i)
    {
      assert ForwardDone(l, dim, rhs, y, i);
      DotTail(l[i], y, i + 1, dim);
    }
  }

  ghost predicate BackDone(l: Matrix, dim: nat, y: Vector, v: Vector, k: nat)
    requires Square(l, dim) && |v| == dim == |y| && k < dim
  {
    Dot(Column(l, dim, k), v, dim) == y[k]
  }

  /** y[row] less the terms of the known part of v. */
  method OpenBack(lower: seq<real>, y: seq<real>, v: array<real>, dim: nat, row: nat)
    returns (sum: real)
    requires row < dim == v.Length == |y|
    ensures var c := Column(RowsOf(lower, dim), dim, row);
      sum == y[row] - (Dot(c, v[..], dim) - Dot(c, v[..], row + 1))
  {
    hide At;
    ghost var c := Column(RowsOf(lower, dim), dim, row);
    sum := y[row];
    for k := row + 1 to dim
      invariant sum == y[row] - (Dot(c, v[..], k) - Dot(c, v[..], row + 1))
    {
      assert At(lower, dim, k, row) == c[k];
      sum := sum - At(lower, dim, k, row) * v[k];
    }
  }

  lemma BackNew(l: Matrix, dim: nat, row: nat, v: Vector, value: real, y: Vector)
    requires Square(l, dim) && row < dim && |v| == dim && |y| == dim && UpperZero(l, dim)
    requires var c := Column(l, dim, row);
      value * l[row][row] == y[row] - (Dot(c, v, dim) - Dot(c, v, row + 1))
    ensures BackDone(l, dim, y, v[row := value], row)
  {
    hide Dot;
    var c := Column(l, dim, row);
    DotUpdate(c, v, dim, row, value);
    DotTail(c, v, 0, row);
    DotLast(c, v, row);
    DotEmpty(c, v);
  }

  lemma BackKept(l: Matrix, dim: nat, row: nat, v: Vector, value: real, y: Vector, k: nat)
    requires Square(l, dim) && row < k < dim && |v| == dim && |y| == dim && UpperZero(l, dim)
    requires BackDone(l, dim, y, v, k)
    ensures BackDone(l, dim, y, v[row := value], k)
  {
    hide Dot;
    var c := Column(l, dim, k);
    DotUpdate(c, v, dim, row, value);
    assert c[row] == 0.0;
  }

  /** Back substitution: lᵀ·x = y. */
  method BackSubstitute(lower: seq<real>, y: seq<real>, dim: nat) returns (x: seq<real>)
    requires |y| == dim
    requires UpperZero(RowsOf(lower, dim), dim) && HasPivots(RowsOf(lower, dim), dim)
    ensures |x| == dim
    ensures ApplyTransposed(RowsOf(lower, dim), dim, x) == y
  {
    hide Dot;
    hide At;
    ghost var l := RowsOf(lower, dim);
    var solution := new real[dim](_ => 0.0);
    for row := dim downto 0
      invariant forall k: nat :: row <= k < dim ==> BackDone(l, dim, y, solution[..], k)
    {
      var sum := OpenBack(lower, y, solution, dim, row);
      var diagonal := At(lower, dim, row, row);
      assert diagonal == l[row][row];
      if diagonal == 0.0 {
        assert false;
      }
      ghost var before := solution[..];
      var value := sum / diagonal;
      assert value * l[row][row] == sum;
      solution[row] := value;
      assert solution[..] == before[row := value];
      BackNew(l, dim, row, before, value, y);
      forall k: nat | row < k < dim
        ensures BackDone(l, dim, y, solution[..], k)
      {
        BackKept(l, dim, row, before, value, y, k);
      }
    }
    x := solution[..];
    forall k: nat | k < dim
      ensures Dot(Column(l, dim, k), x, dim) == y[k]
    {
      assert BackDone(l, dim, y, x, k);
    }
  }

  /** x solves a·x = b, and a has a lower factor l with l·lᵀ = a. */
  ghost predicate Solves(a: Matrix, dim: nat, b: Vector, x: Vector)
    requires Square(a, dim) && |b| == dim
  {
    && |x| == dim
    && Apply(a, dim, x) == b
    && exists l: Matrix :: Square(l, dim) && IsLowerFactor(l, dim) && IsGramOf(a, l, dim)
  }

  lemma FactoredIsGram(a: Matrix, l: Matrix, dim: nat)
    requires Square(a, dim) && Symmetric(a, dim) && Square(l, dim)
    requires Factored(a, l, dim, dim)
    ensures HasPivots(l, dim) && IsLowerFactor(l, dim) && IsGramOf(a, l, dim)
  {
    forall i: nat | i < dim
      ensures l[i][i] > 0.0
    {
      assert PivotDone(l, dim, i);
    }
    forall i: nat, j: nat | i < dim && j < dim
      ensures a[i][j] == Dot(l[i], l[j], dim)
    {
      if j <= i {
        assert EntryDone(a, l, dim, i, j);
        DotTail(l[i], l[j], j + 1, dim);
      } else {
        assert EntryDone(a, l, dim, j, i);
        DotTail(l[j], l[i], i + 1, dim);
        DotCommutes(l[i], l[j], dim);
      }
    }
  }

  lemma FactoredIsPositive(a: Matrix, l: Matrix, dim: nat)
    requires Square(a, dim) && Square(l, dim)
    requires Factored(a, l, dim, dim) && IsLowerFactor(l, dim) && IsGramOf(a, l, dim)
    ensures NumericallyPositive(a, dim)
  {
    forall k: nat, v | UnitAt(v, dim, k)
      ensures Quadratic(a, dim, v) > PIVOT_TOLERANCE
    {
      PivotBound(a, l, dim, v, k);
      assert PivotDone(l, dim, k);
      assert l[k][k] * v[k] == l[k][k];
    }
  }

  /** Solves a·x = rhs for the symmetric matrix a of the lower triangle. There
      is an answer exactly when a is numerically positive definite, and it is
      then an exact solution. */
  method SolveSpd(matrix: seq<real>, rhs: seq<real>, dim: nat, sqrt: real -> real)
    returns (r: Option<seq<real>>)
    requires ExactSqrt(sqrt)
    ensures r.Some? <==> NumericallyPositive(Reflected(matrix, dim), dim)
    ensures r.Some? ==> Solves(Reflected(matrix, dim), dim, VectorOf(rhs, dim), r.value)
  {
    hide At;
    var factor := Factorize(matrix, dim, sqrt);
    if factor.None? {
      return None;
    }
    var lower := factor.value;
    ghost var a, l := Reflected(matrix, dim), RowsOf(lower, dim);
    FactoredIsGram(a, l, dim);
    FactoredIsPositive(a, l, dim);
    var y := ForwardSubstitute(lower, rhs, dim);
    var x := BackSubstitute(lower, y, dim);
    GramApply(a, l, dim, x);
    r := Some(x);
  }

  /** The answer is the only solution, and the matrix is positive definite. */
  lemma SolutionIsUnique(a: Matrix, dim: nat, b: Vector, x: Vector, other: Vector)
    requires Square(a, dim) && |b| == dim && |other| == dim
    requires Solves(a, dim, b, x)
    ensures Apply(a, dim, other) == b ==> other == x
    ensures !IsZero(other) ==> Quadratic(a, dim, other) > 0.0
  {
    var l: Matrix :| Square(l, dim) && IsLowerFactor(l, dim) && IsGramOf(a, l, dim);
    if Apply(a, dim, other) == b {
      UniqueSolution(a, l, dim, other, x);
    }
    if !IsZero(other) {
      PositiveDefinite(a, l, dim, other);
    }
  }

  /** For a symmetric buffer the solver works on the whole matrix. */
  lemma ReflectedOfSymmetric(m: seq<real>, dim: nat)
    requires Symmetric(RowsOf(m, dim), dim)
    ensures Reflected(m, dim) == RowsOf(m, dim)
  {
    forall i: nat | i < dim
      ensures Reflected(m, dim)[i] == RowsOf(m, dim)[i]
    {
      forall j: nat | j < dim
        ensures Reflected(m, dim)[i][j] == RowsOf(m, dim)[i][j]
      {
        assert RowsOf(m, dim)[i][j] == RowsOf(m, dim)[j][i];
      }
    }
  }
}
