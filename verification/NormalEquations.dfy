/** The weighted ridge normal equations as a specification, and why their
    solution is the best coefficient vector. */
module NormalEquations {
  import opened LinearAlgebra
  import opened WeightedSums
  import opened Cholesky

  /** A standardized row and its transformed target. */
  datatype Sample = Sample(row: Vector, target: real)

  /** Entry j of a row; a missing entry reads as 0. */
  function Cell(row: Vector, j: nat): real {
    if j < |row| then row[j] else 0.0
  }

  /** Entry j of the design row: an intercept column of ones first. */
  function DesignCell(row: Vector, j: nat): real {
    if j == 0 then 1.0 else Cell(row, j - 1)
  }

  ghost function Design(row: Vector, dim: nat): (x: Vector)
    ensures |x| == dim
  {
    seq(dim, j requires 0 <= j < dim => DesignCell(row, j))
  }

  ghost function ProductOf(i: nat, k: nat): Sample -> real {
    (s: Sample) => Times(DesignCell(s.row, i), DesignCell(s.row, k))
  }

  ghost function MomentOf(i: nat): Sample -> real {
    (s: Sample) => Times(DesignCell(s.row, i), s.target)
  }

  /** XᵀWX of the first n samples. */
  ghost function Gram(samples: seq<Sample>, w: seq<real>, dim: nat, n: nat): (m: Matrix)
    requires n <= |samples| && n <= |w|
    ensures Square(m, dim)
  {
    seq(dim, i requires 0 <= i < dim => seq(dim, k requires 0 <= k < dim => Sum(ProductOf(i, k), samples, w, n)))
  }

  /** XᵀWy of the first n samples. */
  ghost function Moments(samples: seq<Sample>, w: seq<real>, dim: nat, n: nat): (v: Vector)
    requires n <= |samples| && n <= |w|
    ensures |v| == dim
  {
    seq(dim, i requires 0 <= i < dim => Sum(MomentOf(i), samples, w, n))
  }

  /** m with the penalty added on the diagonal, except at the intercept. */
  ghost function Penalized(m: Matrix, dim: nat, penalty: real): (r: Matrix)
    requires Square(m, dim)
    ensures Square(r, dim)
  {
    seq(dim, i requires 0 <= i < dim => seq(dim, k requires 0 <= k < dim =>
      m[i][k] + if i == k && i > 0 then penalty else 0.0))
  }

  /** The residual of one sample under the coefficients beta. */
  ghost function Residual(s: Sample, beta: Vector): real {
    s.target - Dot(Design(s.row, |beta|), beta, |beta|)
  }

  ghost function SquaredResidualOf(beta: Vector): Sample -> real {
    (s: Sample) => Squared(Residual(s, beta))
  }

  /** The size of the penalized coefficients: all but the intercept. */
  ghost function Penalty(beta: Vector): real {
    if beta == [] then 0.0 else Dot(beta, beta, |beta|) - beta[0] * beta[0]
  }

  /** What the fit minimises: the weighted squared error plus the penalty. */
  ghost function Cost(samples: seq<Sample>, w: seq<real>, penalty: real, beta: Vector): real
    requires |samples| == |w|
  {
    Sum(SquaredResidualOf(beta), samples, w, |samples|) + penalty * Penalty(beta)
  }

  lemma GramIsSymmetric(samples: seq<Sample>, w: seq<real>, dim: nat, n: nat, penalty: real)
    requires n <= |samples| && n <= |w|
    ensures Symmetric(Penalized(Gram(samples, w, dim, n), dim, penalty), dim)
  {
    forall i: nat, k: nat | i < dim && k < dim
      ensures Sum(ProductOf(i, k), samples, w, n) == Sum(ProductOf(k, i), samples, w, n)
    {
      ProductSymmetric(samples, w, i, k, n);
    }
  }

  lemma {:induction false} ProductSymmetric(samples: seq<Sample>, w: seq<real>, i: nat, k: nat, n: nat)
    requires n <= |samples| && n <= |w|
    ensures Sum(ProductOf(i, k), samples, w, n) == Sum(ProductOf(k, i), samples, w, n)
  {
    if n > 0 {
      ProductSymmetric(samples, w, i, k, n - 1);
      assert ProductOf(i, k)(samples[n - 1]) == ProductOf(k, i)(samples[n - 1]);
    }
  }

  // --- One more sample -----------------------------------------------------------

  /** Row i of the Gram matrix gains weight·x[i] times the design row. */
  lemma GramStep(samples: seq<Sample>, w: seq<real>, dim: nat, n: nat, i: nat, k: nat)
    requires n < |samples| && n < |w| && i < dim && k < dim
    ensures var x := Design(samples[n].row, dim);
      Gram(samples, w, dim, n + 1)[i][k] == (w[n] * x[i]) * x[k] + Gram(samples, w, dim, n)[i][k]
  {
    var x := Design(samples[n].row, dim);
    SumLast(ProductOf(i, k), samples, w, n);
    assert ProductOf(i, k)(samples[n]) == x[i] * x[k];
    assert w[n] * (x[i] * x[k]) == (w[n] * x[i]) * x[k];
  }

  lemma MomentStep(samples: seq<Sample>, w: seq<real>, dim: nat, n: nat, i: nat)
    requires n < |samples| && n < |w| && i < dim
    ensures var x := Design(samples[n].row, dim);
      Moments(samples, w, dim, n + 1)[i] == (w[n] * samples[n].target) * x[i] + Moments(samples, w, dim, n)[i]
  {
    var x := Design(samples[n].row, dim);
    SumLast(MomentOf(i), samples, w, n);
    assert MomentOf(i)(samples[n]) == x[i] * samples[n].target;
    assert w[n] * (x[i] * samples[n].target) == (w[n] * samples[n].target) * x[i];
  }

  lemma GramRowStep(samples: seq<Sample>, w: seq<real>, dim: nat, n: nat, v: Vector, i: nat, a: real)
    requires n < |samples| && n < |w| && |v| == dim && i < dim
    requires a == Times(w[n], Design(samples[n].row, dim)[i])
    ensures var x := Design(samples[n].row, dim);
      Dot(Gram(samples, w, dim, n + 1)[i], v, dim)
        == a * Dot(x, v, dim) + Dot(Gram(samples, w, dim, n)[i], v, dim)
  {
    hide Gram;
    hide Dot;
    var x := Design(samples[n].row, dim);
    var r, r' := Gram(samples, w, dim, n)[i], Gram(samples, w, dim, n + 1)[i];
    forall k | 0 <= k < dim
      ensures r'[k] == a * x[k] + r[k]
    {
      GramStep(samples, w, dim, n, i, k);
    }
    DotLinear(v, a, x, r, r', dim);
    DotCommutes(r', v, dim);
    DotCommutes(r, v, dim);
    DotCommutes(v, x, dim);
  }

  lemma SwapFactors(a: real, b: real, c: real, ab: real, ac: real)
    requires ab == Times(a, b) && ac == Times(a, c)
    ensures ab * c == ac * b
  {
  }

  /** Gram·v gains the design row times c = weight·(x·v). */
  lemma GramApplyStep(samples: seq<Sample>, w: seq<real>, dim: nat, n: nat, v: Vector, i: nat, c: real)
    requires n < |samples| && n < |w| && |v| == dim && i < dim
    requires c == Times(w[n], Dot(Design(samples[n].row, dim), v, dim))
    ensures var x := Design(samples[n].row, dim);
      Apply(Gram(samples, w, dim, n + 1), dim, v)[i] == c * x[i] + Apply(Gram(samples, w, dim, n), dim, v)[i]
  {
    hide Apply;
    hide Times;
    hide Gram;
    hide Dot;
    hide Design;
    var x := Design(samples[n].row, dim);
    var a := Times(w[n], x[i]);
    ApplyAt(Gram(samples, w, dim, n), dim, v, i);
    ApplyAt(Gram(samples, w, dim, n + 1), dim, v, i);
    GramRowStep(samples, w, dim, n, v, i, a);
    SwapFactors(w[n], x[i], Dot(x, v, dim), a, c);
  }

  ghost function Form(m: Matrix, dim: nat, u: Vector, v: Vector): real
    requires Square(m, dim) && |u| == dim && |v| == dim
  {
    Dot(u, Apply(m, dim, v), dim)
  }

  lemma FormStep(samples: seq<Sample>, w: seq<real>, dim: nat, n: nat, u: Vector, v: Vector, c: real)
    requires n < |samples| && n < |w| && |u| == dim && |v| == dim
    requires c == Times(w[n], Dot(Design(samples[n].row, dim), v, dim))
    ensures var x := Design(samples[n].row, dim);
      Form(Gram(samples, w, dim, n + 1), dim, u, v)
        == c * Dot(x, u, dim) + Form(Gram(samples, w, dim, n), dim, u, v)
  {
    hide Times;
    hide Gram;
    hide Dot;
    hide Apply;
    hide Design;
    var x := Design(samples[n].row, dim);
    var g, g' := Apply(Gram(samples, w, dim, n), dim, v), Apply(Gram(samples, w, dim, n + 1), dim, v);
    ApplyLength(Gram(samples, w, dim, n), dim, v);
    ApplyLength(Gram(samples, w, dim, n + 1), dim, v);
    forall i | 0 <= i < dim
      ensures g'[i] == c * x[i] + g[i]
    {
      GramApplyStep(samples, w, dim, n, v, i, c);
    }
    DotLinear(u, c, x, g, g', dim);
    DotCommutes(u, x, dim);
  }

  lemma ApplyAt(m: Matrix, dim: nat, v: Vector, i: nat)
    requires Square(m, dim) && |v| == dim && i < dim
    ensures |Apply(m, dim, v)| == dim && Apply(m, dim, v)[i] == Dot(m[i], v, dim)
  {
  }

  lemma ApplyLength(m: Matrix, dim: nat, v: Vector)
    requires Square(m, dim) && |v| == dim
    ensures |Apply(m, dim, v)| == dim
  {
  }

  lemma MomentFormStep(samples: seq<Sample>, w: seq<real>, dim: nat, n: nat, u: Vector, c: real)
    requires n < |samples| && n < |w| && |u| == dim
    requires c == Times(w[n], samples[n].target)
    ensures var x := Design(samples[n].row, dim);
      Dot(u, Moments(samples, w, dim, n + 1), dim)
        == c * Dot(x, u, dim) + Dot(u, Moments(samples, w, dim, n), dim)
  {
    hide Moments;
    hide Dot;
    var x := Design(samples[n].row, dim);
    var b, b' := Moments(samples, w, dim, n), Moments(samples, w, dim, n + 1);
    forall i | 0 <= i < dim
      ensures b'[i] == c * x[i] + b[i]
    {
      MomentStep(samples, w, dim, n, i);
    }
    DotLinear(u, c, x, b, b', dim);
    DotCommutes(u, x, dim);
  }

  // --- The cost around a point -----------------------------------------------------

  lemma SquareStep(w: real, t: real, p: real, q: real, wp: real, wt: real, wq: real)
    requires wp == Times(w, p) && wt == Times(w, t) && wq == Times(w, q)
    ensures Times(w, Squared(t - (p + q))) == Times(w, Squared(t - p)) + 2.0 * (wp * q - wt * q) + wq * q
  {
    var r := t - p;
    assert Squared(r - q) == Squared(r) - 2.0 * (r * q) + q * q;
    assert w * (Squared(r) - 2.0 * (r * q) + q * q) == w * Squared(r) - 2.0 * (w * (r * q)) + w * (q * q);
    assert w * (r * q) == (w * t) * q - (w * p) * q;
  }

  lemma DotPlus(x: Vector, u: Vector, v: Vector, dim: nat)
    requires |x| == |u| == |v| == dim
    ensures Dot(x, Plus(u, v), dim) == Dot(x, u, dim) + Dot(x, v, dim)
  {
    DotLinear(x, 1.0, u, v, Plus(u, v), dim);
  }

  lemma ResidualPlus(s: Sample, dim: nat, beta: Vector, d: Vector)
    requires |beta| == |d| == dim
    ensures var x := Design(s.row, dim);
      && SquaredResidualOf(beta)(s) == Squared(s.target - Dot(x, beta, dim))
      && SquaredResidualOf(Plus(beta, d))(s) == Squared(s.target - (Dot(x, beta, dim) + Dot(x, d, dim)))
  {
    hide Dot;
    hide Design;
    hide Squared;
    DotPlus(Design(s.row, dim), beta, d, dim);
  }

  ghost function SquaredError(samples: seq<Sample>, w: seq<real>, beta: Vector, n: nat): real
    requires n <= |samples| && n <= |w|
  {
    Sum(SquaredResidualOf(beta), samples, w, n)
  }

  lemma {:induction false} ErrorExpansion(samples: seq<Sample>, w: seq<real>, dim: nat, beta: Vector, d: Vector, n: nat)
    requires |beta| == |d| == dim && n <= |samples| && n <= |w|
    ensures var g := Gram(samples, w, dim, n);
      SquaredError(samples, w, Plus(beta, d), n)
        == SquaredError(samples, w, beta, n)
         + 2.0 * (Form(g, dim, d, beta) - Dot(d, Moments(samples, w, dim, n), dim))
         + Form(g, dim, d, d)
  {
    if n == 0 {
      EmptyForms(samples, w, dim, beta, d);
    } else {
      ErrorExpansion(samples, w, dim, beta, d, n - 1);
      ErrorStep(samples, w, dim, beta, d, n - 1);
    }
  }

  lemma EmptyForms(samples: seq<Sample>, w: seq<real>, dim: nat, beta: Vector, d: Vector)
    requires |beta| == |d| == dim
    ensures Form(Gram(samples, w, dim, 0), dim, d, beta) == 0.0
    ensures Form(Gram(samples, w, dim, 0), dim, d, d) == 0.0
    ensures Dot(d, Moments(samples, w, dim, 0), dim) == 0.0
  {
    var g := Gram(samples, w, dim, 0);
    forall i: nat | i < dim
      ensures Apply(g, dim, beta)[i] == 0.0 && Apply(g, dim, d)[i] == 0.0
    {
      DotTail(g[i], beta, 0, dim);
      DotTail(g[i], d, 0, dim);
    }
    DotTail(d, Apply(g, dim, beta), 0, dim);
    DotTail(d, Apply(g, dim, d), 0, dim);
    DotTail(d, Moments(samples, w, dim, 0), 0, dim);
  }

  lemma ErrorStep(samples: seq<Sample>, w: seq<real>, dim: nat, beta: Vector, d: Vector, n: nat)
    requires |beta| == |d| == dim && n < |samples| && n < |w|
    requires var g := Gram(samples, w, dim, n);
      SquaredError(samples, w, Plus(beta, d), n)
        == SquaredError(samples, w, beta, n)
         + 2.0 * (Form(g, dim, d, beta) - Dot(d, Moments(samples, w, dim, n), dim))
         + Form(g, dim, d, d)
    ensures var g := Gram(samples, w, dim, n + 1);
      SquaredError(samples, w, Plus(beta, d), n + 1)
        == SquaredError(samples, w, beta, n + 1)
         + 2.0 * (Form(g, dim, d, beta) - Dot(d, Moments(samples, w, dim, n + 1), dim))
         + Form(g, dim, d, d)
  {
    hide Gram;
    hide Moments;
    hide Dot;
    hide Form;
    hide Sum;
    hide Times;
    hide Squared;
    hide Plus;
    hide Design;
    hide SquaredResidualOf;
    var s := samples[n];
    var x := Design(s.row, dim);
    var p, q := Dot(x, beta, dim), Dot(x, d, dim);
    var wp, wt, wq := Times(w[n], p), Times(w[n], s.target), Times(w[n], q);
    FormStep(samples, w, dim, n, d, beta, wp);
    FormStep(samples, w, dim, n, d, d, wq);
    MomentFormStep(samples, w, dim, n, d, wt);
    SumLast(SquaredResidualOf(beta), samples, w, n);
    SumLast(SquaredResidualOf(Plus(beta, d)), samples, w, n);
    ResidualPlus(s, dim, beta, d);
    SquareStep(w[n], s.target, p, q, wp, wt, wq);
  }

  /** The penalty times v, without the intercept. */
  ghost function PenaltyRow(v: Vector, penalty: real): (r: Vector)
    ensures |r| == |v|
  {
    seq(|v|, j requires 0 <= j < |v| => if j == 0 then 0.0 else Times(penalty, v[j]))
  }

  /** The product of u and v without the intercept. */
  ghost function PenalizedDot(u: Vector, v: Vector): real
    requires |u| == |v|
  {
    if |u| == 0 then 0.0 else Dot(u, v, |u|) - u[0] * v[0]
  }

  lemma {:induction false} PenaltyDot(u: Vector, v: Vector, penalty: real, n: nat)
    requires 0 < n <= |u| == |v|
    ensures Dot(u, PenaltyRow(v, penalty), n) == penalty * (Dot(u, v, n) - u[0] * v[0])
  {
    if n == 1 {
      DotLast(u, PenaltyRow(v, penalty), 0);
      DotLast(u, v, 0);
    } else {
      PenaltyDot(u, v, penalty, n - 1);
      DotLast(u, PenaltyRow(v, penalty), n - 1);
      DotLast(u, v, n - 1);
      Spread(penalty, u[n - 1], v[n - 1], Dot(u, v, n - 1) - u[0] * v[0]);
    }
  }

  lemma Spread(penalty: real, a: real, b: real, rest: real)
    ensures penalty * rest + a * Times(penalty, b) == penalty * (rest + a * b)
  {
    assert a * (penalty * b) == penalty * (a * b);
  }

  lemma DotWithUnit(v: Vector, gap: Vector, dim: nat, i: nat)
    requires |v| == |gap| == dim && i < dim
    requires forall k :: 0 <= k < dim && k != i ==> gap[k] == 0.0
    ensures Dot(v, gap, dim) == v[i] * gap[i]
  {
    hide Dot;
    DotTail(v, gap, i + 1, dim);
    DotLast(v, gap, i);
    DotTail(v, gap, 0, i);
    DotEmpty(v, gap);
  }

  lemma PenalizedRow(m: Matrix, dim: nat, penalty: real, v: Vector, i: nat)
    requires Square(m, dim) && |v| == dim && i < dim
    ensures Dot(Penalized(m, dim, penalty)[i], v, dim) == PenaltyRow(v, penalty)[i] + Dot(m[i], v, dim)
  {
    hide Dot;
    var r, r' := m[i], Penalized(m, dim, penalty)[i];
    var gap := seq(dim, k requires 0 <= k < dim => if i == k && i > 0 then penalty else 0.0);
    DotLinear(v, 1.0, gap, r, r', dim);
    DotCommutes(v, r, dim);
    DotCommutes(v, r', dim);
    DotWithUnit(v, gap, dim, i);
  }

  /** The form of the penalized matrix is the form plus the penalty times the penalized product. */
  lemma PenalizedForm(m: Matrix, dim: nat, penalty: real, u: Vector, v: Vector)
    requires Square(m, dim) && |u| == |v| == dim && dim > 0
    ensures Form(Penalized(m, dim, penalty), dim, u, v) == penalty * PenalizedDot(u, v) + Form(m, dim, u, v)
  {
    hide Dot;
    hide Penalized;
    hide PenaltyRow;
    hide Apply;
    var a := Penalized(m, dim, penalty);
    ApplyLength(m, dim, v);
    ApplyLength(a, dim, v);
    forall i | 0 <= i < dim
      ensures Apply(a, dim, v)[i] == 1.0 * PenaltyRow(v, penalty)[i] + Apply(m, dim, v)[i]
    {
      ApplyAt(m, dim, v, i);
      ApplyAt(a, dim, v, i);
      PenalizedRow(m, dim, penalty, v, i);
    }
    DotLinear(u, 1.0, PenaltyRow(v, penalty), Apply(m, dim, v), Apply(a, dim, v), dim);
    PenaltyDot(u, v, penalty, dim);
  }

  lemma PenaltyPlus(beta: Vector, d: Vector)
    requires |beta| == |d| > 0
    ensures Penalty(Plus(beta, d)) == Penalty(beta) + 2.0 * PenalizedDot(d, beta) + Penalty(d)
  {
    hide Dot;
    var n := |beta|;
    var e := Plus(beta, d);
    DotPlus(e, beta, d, n);
    DotCommutes(e, beta, n);
    DotCommutes(e, d, n);
    DotPlus(beta, beta, d, n);
    DotPlus(d, beta, d, n);
    DotCommutes(beta, d, n);
    BinomialSquare(beta[0], d[0]);
  }

  lemma BinomialSquare(a: real, b: real)
    ensures (a + b) * (a + b) == a * a + 2.0 * (b * a) + b * b
  {
  }

  /** The cost away from beta, for any direction d:
      cost(beta + d) = cost(beta) + 2·d·(a·beta - b) + dᵀ·a·d. */
  lemma CostExpansion(samples: seq<Sample>, w: seq<real>, penalty: real, dim: nat, beta: Vector, d: Vector)
    requires |samples| == |w| && |beta| == |d| == dim && dim > 0
    ensures var a := Penalized(Gram(samples, w, dim, |w|), dim, penalty);
      Cost(samples, w, penalty, Plus(beta, d))
        == Cost(samples, w, penalty, beta)
         + 2.0 * (Form(a, dim, d, beta) - Dot(d, Moments(samples, w, dim, |w|), dim))
         + Form(a, dim, d, d)
  {
    hide Gram;
    hide Dot;
    hide Form;
    hide Sum;
    hide Penalized;
    hide PenalizedDot;
    hide Moments;
    hide Plus;
    hide Penalty;
    var n := |w|;
    var g := Gram(samples, w, dim, n);
    ErrorExpansion(samples, w, dim, beta, d, n);
    PenalizedForm(g, dim, penalty, d, beta);
    PenalizedForm(g, dim, penalty, d, d);
    PenaltyPlus(beta, d);
    PenaltyOfSelf(d);
    Distribute(penalty, Penalty(beta), PenalizedDot(d, beta), Penalty(d));
  }

  lemma PenaltyOfSelf(d: Vector)
    ensures Penalty(d) == PenalizedDot(d, d)
  {
  }

  lemma Distribute(penalty: real, a: real, b: real, c: real)
    ensures penalty * (a + 2.0 * b + c) == penalty * a + 2.0 * (penalty * b) + penalty * c
  {
  }

  // --- The fitted coefficients --------------------------------------------------------

  ghost function NormalMatrix(samples: seq<Sample>, w: seq<real>, penalty: real, dim: nat): (a: Matrix)
    requires |samples| == |w|
    ensures Square(a, dim)
  {
    Penalized(Gram(samples, w, dim, |w|), dim, penalty)
  }

  ghost function NormalVector(samples: seq<Sample>, w: seq<real>, dim: nat): (b: Vector)
    requires |samples| == |w|
    ensures |b| == dim
  {
    Moments(samples, w, dim, |w|)
  }

  /** The solution of the normal equations is the only minimiser of the cost;
      any other coefficients cost dᵀ·a·d > 0 more, for their distance d. */
  lemma SolutionMinimises(samples: seq<Sample>, w: seq<real>, penalty: real, dim: nat, beta: Vector, other: Vector)
    requires |samples| == |w| && |other| == dim && dim > 0
    requires Solves(NormalMatrix(samples, w, penalty, dim), dim, NormalVector(samples, w, dim), beta)
    ensures Cost(samples, w, penalty, other)
         == Cost(samples, w, penalty, beta)
          + Quadratic(NormalMatrix(samples, w, penalty, dim), dim, Minus(other, beta))
    ensures other != beta ==> Cost(samples, w, penalty, other) > Cost(samples, w, penalty, beta)
  {
    var d := Minus(other, beta);
    assert Plus(beta, d) == other;
    SolutionExpansion(samples, w, penalty, dim, beta, d);
    SolutionIsUnique(NormalMatrix(samples, w, penalty, dim), dim, NormalVector(samples, w, dim), beta, d);
    if IsZero(d) {
      assert other == beta;
    }
  }

  lemma SolutionExpansion(samples: seq<Sample>, w: seq<real>, penalty: real, dim: nat, beta: Vector, d: Vector)
    requires |samples| == |w| && |d| == dim && dim > 0
    requires Solves(NormalMatrix(samples, w, penalty, dim), dim, NormalVector(samples, w, dim), beta)
    ensures Cost(samples, w, penalty, Plus(beta, d))
         == Cost(samples, w, penalty, beta) + Quadratic(NormalMatrix(samples, w, penalty, dim), dim, d)
  {
    hide Cost;
    hide Gram;
    hide Dot;
    hide Penalized;
    hide Moments;
    hide Plus;
    hide Apply;
    CostExpansion(samples, w, penalty, dim, beta, d);
  }

  lemma {:induction false} WeightedFormAtLeast(samples: seq<Sample>, w: seq<real>, dim: nat, v: Vector, n: nat)
    requires n <= |samples| && n <= |w| && |v| == dim > 0
    requires forall i :: 0 <= i < n ==> w[i] >= 0.0
    ensures Form(Gram(samples, w, dim, n), dim, v, v) >= 0.0
    ensures UnitAt(v, dim, 0) ==> Form(Gram(samples, w, dim, n), dim, v, v) == Total(w, n)
  {
    if n == 0 {
      EmptyForms(samples, w, dim, v, v);
    } else {
      WeightedFormAtLeast(samples, w, dim, v, n - 1);
      WeightedFormStep(samples, w, dim, v, n - 1);
    }
  }

  lemma WeightedFormStep(samples: seq<Sample>, w: seq<real>, dim: nat, v: Vector, n: nat)
    requires n < |samples| && n < |w| && |v| == dim > 0 && w[n] >= 0.0
    ensures Form(Gram(samples, w, dim, n + 1), dim, v, v) >= Form(Gram(samples, w, dim, n), dim, v, v)
    ensures UnitAt(v, dim, 0) ==>
      Form(Gram(samples, w, dim, n + 1), dim, v, v) == Form(Gram(samples, w, dim, n), dim, v, v) + w[n]
  {
    hide Form;
    hide Gram;
    hide Dot;
    var x := Design(samples[n].row, dim);
    var q := Dot(x, v, dim);
    FormStep(samples, w, dim, n, v, v, Times(w[n], q));
    WeightedSquare(w[n], q);
    if UnitAt(v, dim, 0) {
      DotWithUnit(x, v, dim, 0);
    }
  }

  lemma WeightedSquare(w: real, q: real)
    requires w >= 0.0
    ensures Times(w, q) * q >= 0.0
  {
    assert Times(w, q) * q == w * Squared(q);
  }

  lemma {:induction false} PenaltyAtLeast(v: Vector, k: nat, n: nat)
    requires 0 < n <= |v|
    ensures Dot(v, v, n) - v[0] * v[0] >= 0.0
    ensures 0 < k < n && v[k] == 1.0 ==> Dot(v, v, n) - v[0] * v[0] >= 1.0
  {
    DotLast(v, v, n - 1);
    if n > 1 {
      PenaltyAtLeast(v, k, n - 1);
      assert Squared(v[n - 1]) >= 0.0;
    } else {
      DotEmpty(v, v);
    }
  }

  /** With non-negative weights, a total weight and a penalty above the pivot
      tolerance are enough: the solver always has an answer. */
  lemma NormalMatrixIsPositive(samples: seq<Sample>, w: seq<real>, penalty: real, dim: nat)
    requires |samples| == |w| && dim > 0
    requires forall i :: 0 <= i < |w| ==> w[i] >= 0.0
    requires Total(w, |w|) > PIVOT_TOLERANCE && penalty > PIVOT_TOLERANCE
    ensures NumericallyPositive(NormalMatrix(samples, w, penalty, dim), dim)
  {
    hide Gram;
    hide Penalized;
    hide Dot;
    forall k: nat, v | UnitAt(v, dim, k)
      ensures Quadratic(NormalMatrix(samples, w, penalty, dim), dim, v) > PIVOT_TOLERANCE
    {
      PenalizedForm(Gram(samples, w, dim, |w|), dim, penalty, v, v);
      WeightedFormAtLeast(samples, w, dim, v, |w|);
      PenaltyAtLeast(v, k, dim);
      ScaledPenalty(penalty, PenalizedDot(v, v));
    }
  }

  lemma ScaledPenalty(penalty: real, p: real)
    requires penalty > 0.0 && p >= 0.0
    ensures penalty * p >= 0.0
    ensures p >= 1.0 ==> penalty * p >= penalty
  {
  }
}
