/** The closed-form ridge regression: standardizer, normal equations, fit, and
    predictor, over the reals. */
module Ridge {
  import opened Common
  import opened LinearAlgebra
  import opened WeightedSums
  import opened Cholesky
  import opened NormalEquations

  const MIN_FIT_SAMPLES: nat := 24
  const FALLBACK_PREDICTION: real := 3.0
  /** A column with at most this standard deviation keeps scale 1. */
  const SCALE_TOLERANCE: real := 0.000000000001

  datatype PriceTransform = Arcsinh | NoTransform

  datatype FitOptions = FitOptions(ridgeLambda: real, transform: PriceTransform)

  /** `targets[i]` belongs to `rows[i]`; a missing row entry reads as 0. */
  datatype TrainingData = TrainingData(featureCount: nat, rows: seq<Vector>, targets: Vector)

  /** The real functions that the kernel calls. */
  datatype Elementary = Elementary(sqrt: real -> real, sinh: real -> real, asinh: real -> real)

  datatype Standardizer = Standardizer(means: Vector, scales: Vector) {
    predicate Valid() {
      |means| == |scales| && forall j :: 0 <= j < |scales| ==> scales[j] > 0.0
    }

    function Standardize(row: Vector): (z: Vector)
      requires Valid()
      ensures |z| == |means|
    {
      seq(|means|, j requires 0 <= j < |means| => (Cell(row, j) - means[j]) / scales[j])
    }
  }

  datatype Fitted =
    | Fallback
    | Linear(intercept: real, coefficients: Vector, standardizer: Standardizer, transform: PriceTransform)

  datatype FitMeta = FitMeta(usedFallback: bool, sampleCount: nat, featureCount: nat)

  datatype FittedModel = FittedModel(meta: FitMeta, fitted: Fitted)

  // --- Standardizer ----------------------------------------------------------------

  ghost function CellOf(j: nat): Vector -> real {
    (row: Vector) => Cell(row, j)
  }

  ghost function DeviationOf(j: nat, mean: real): Vector -> real {
    (row: Vector) => Squared(Cell(row, j) - mean)
  }

  /** The rows that have a weight. */
  function Zipped(rows: seq<Vector>, w: Vector): (n: nat)
    ensures n <= |rows| && n <= |w|
    ensures |rows| == |w| ==> n == |w|
  {
    if |rows| <= |w| then |rows| else |w|
  }

  ghost function ColumnMean(rows: seq<Vector>, w: Vector, j: nat): real
    requires Total(w, |w|) > 0.0
  {
    Sum(CellOf(j), rows, w, Zipped(rows, w)) / Total(w, |w|)
  }

  ghost function ColumnVariance(rows: seq<Vector>, w: Vector, j: nat): real
    requires Total(w, |w|) > 0.0
  {
    Sum(DeviationOf(j, ColumnMean(rows, w, j)), rows, w, Zipped(rows, w)) / Total(w, |w|)
  }

  function ScaleOf(std: real): (scale: real)
    ensures scale > 0.0
  {
    if std > SCALE_TOLERANCE then std else 1.0
  }

  /** The weighted moments of the columns; means 0 and scales 1 without rows or weight. */
  ghost function ColumnMoments(rows: seq<Vector>, w: Vector, featureCount: nat, sqrt: real -> real): (s: Standardizer)
    ensures s.Valid() && |s.means| == featureCount
  {
    if rows == [] || Total(w, |w|) <= 0.0 then
      Standardizer(seq(featureCount, j => 0.0), seq(featureCount, j => 1.0))
    else
      var means := seq(featureCount, j requires 0 <= j < featureCount => ColumnMean(rows, w, j));
      var scales := seq(featureCount, j requires 0 <= j < featureCount => ScaleOf(sqrt(ColumnVariance(rows, w, j))));
      assert forall j: nat :: j < featureCount ==> scales[j] == ScaleOf(sqrt(ColumnVariance(rows, w, j)));
      Standardizer(means, scales)
  }

  /** The unweighted moments of the columns. */
  method FromRows(rows: seq<Vector>, featureCount: nat, sqrt: real -> real) returns (s: Standardizer)
    ensures s == ColumnMoments(rows, Ones(|rows|), featureCount, sqrt)
  {
    hide Sum;
    hide Total;
    var means := new real[featureCount](_ => 0.0);
    var scales := new real[featureCount](_ => 1.0);
    TotalOfOnes(|rows|, |rows|);
    if |rows| == 0 {
      assert means[..] == seq(featureCount, j => 0.0);
      assert scales[..] == seq(featureCount, j => 1.0);
      return Standardizer(means[..], scales[..]);
    }
    ghost var w := Ones(|rows|);
    for j := 0 to featureCount
      invariant forall i: nat :: i < j ==> means[i] == ColumnMean(rows, w, i)
      invariant forall i: nat :: i < j ==> scales[i] == ScaleOf(sqrt(ColumnVariance(rows, w, i)))
    {
      var sum := ColumnSum(rows, j);
      var mean := sum / |rows| as real;
      means[j] := mean;
      var varSum := DeviationSum(rows, j, mean);
      scales[j] := ScaleOf(sqrt(varSum / |rows| as real));
    }
    s := Standardizer(means[..], scales[..]);
  }

  method ColumnSum(rows: seq<Vector>, j: nat) returns (sum: real)
    ensures sum == Sum(CellOf(j), rows, Ones(|rows|), |rows|)
  {
    sum := 0.0;
    for n := 0 to |rows|
      invariant sum == Sum(CellOf(j), rows, Ones(|rows|), n)
    {
      sum := sum + Cell(rows[n], j);
    }
  }

  method DeviationSum(rows: seq<Vector>, j: nat, mean: real) returns (sum: real)
    ensures sum == Sum(DeviationOf(j, mean), rows, Ones(|rows|), |rows|)
  {
    sum := 0.0;
    for n := 0 to |rows|
      invariant sum == Sum(DeviationOf(j, mean), rows, Ones(|rows|), n)
    {
      var d := Cell(rows[n], j) - mean;
      assert Squared(d) == d * d;
      sum := sum + d * d;
    }
  }

  /** The weighted moments of the columns. A row without a weight, and a weight
      without a row, adds to no column; the total takes every weight. */
  method FromWeightedRows(rows: seq<Vector>, weights: Vector, featureCount: nat, sqrt: real -> real)
    returns (s: Standardizer)
    ensures s == ColumnMoments(rows, weights, featureCount, sqrt)
  {
    hide Sum;
    hide Total;
    var means := new real[featureCount](_ => 0.0);
    var scales := new real[featureCount](_ => 1.0);
    var total := TotalWeight(weights);
    if |rows| == 0 || total <= 0.0 {
      return Standardizer(means[..], scales[..]);
    }
    for j := 0 to featureCount
      invariant forall i: nat :: i < j ==> means[i] == ColumnMean(rows, weights, i)
      invariant forall i: nat :: i < j ==> scales[i] == ScaleOf(sqrt(ColumnVariance(rows, weights, i)))
    {
      var sum := WeightedColumnSum(rows, weights, j);
      var mean := sum / total;
      means[j] := mean;
      var varSum := WeightedDeviationSum(rows, weights, j, mean);
      scales[j] := ScaleOf(sqrt(varSum / total));
    }
    s := Standardizer(means[..], scales[..]);
  }

  method TotalWeight(weights: Vector) returns (total: real)
    ensures total == Total(weights, |weights|)
  {
    total := 0.0;
    for n := 0 to |weights|
      invariant total == Total(weights, n)
    {
      total := total + weights[n];
    }
  }

  method WeightedColumnSum(rows: seq<Vector>, weights: Vector, j: nat) returns (sum: real)
    ensures sum == Sum(CellOf(j), rows, weights, Zipped(rows, weights))
  {
    sum := 0.0;
    for n := 0 to Zipped(rows, weights)
      invariant sum == Sum(CellOf(j), rows, weights, n)
    {
      sum := sum + weights[n] * Cell(rows[n], j);
    }
  }

  method WeightedDeviationSum(rows: seq<Vector>, weights: Vector, j: nat, mean: real) returns (sum: real)
    ensures sum == Sum(DeviationOf(j, mean), rows, weights, Zipped(rows, weights))
  {
    sum := 0.0;
    for n := 0 to Zipped(rows, weights)
      invariant sum == Sum(DeviationOf(j, mean), rows, weights, n)
    {
      var d := Cell(rows[n], j) - mean;
      WeightedSquareOrder(weights[n], d);
      sum := sum + weights[n] * d * d;
    }
  }

  lemma WeightedSquareOrder(w: real, d: real)
    ensures w * d * d == Times(w, Squared(d))
  {
  }

  // --- Normal equations ---------------------------------------------------------------

  /** Rows paired with targets, as many as both have. */
  ghost function Paired(rows: seq<Vector>, targets: Vector): (samples: seq<Sample>)
    ensures |samples| == if |rows| <= |targets| then |rows| else |targets|
  {
    seq(if |rows| <= |targets| then |rows| else |targets|,
      i requires 0 <= i < |rows| && i < |targets| => Sample(rows[i], targets[i]))
  }

  /** The weight of each of n samples: 1 without weights, 0 past their end. */
  ghost function SampleWeights(weights: Option<Vector>, n: nat): (w: Vector)
    ensures |w| == n
  {
    seq(n, i requires 0 <= i < n => match weights case None => 1.0 case Some(v) => Entry(v, i))
  }

  ghost function AddedRow(r: Vector, c: real, x: Vector): (s: Vector)
    requires |r| == |x|
    ensures |s| == |r|
  {
    seq(|r|, k requires 0 <= k < |r| => c * x[k] + r[k])
  }

  lemma AddedCell(r: Vector, c: real, x: Vector, k: nat)
    requires |r| == |x| && k < |r|
    ensures AddedRow(r, c, x)[k] == r[k] + c * x[k]
  {
  }

  /** Adds c times xrow to row i of the buffer. */
  method AddToRow(ata: array<real>, dim: nat, i: nat, c: real, xrow: array<real>)
    requires ata.Length == dim * dim && i < dim && xrow.Length == dim && ata != xrow
    modifies ata
    ensures var m := RowsOf(old(ata[..]), dim);
      RowsOf(ata[..], dim) == m[i := AddedRow(m[i], c, xrow[..])]
  {
    hide RowsOf;
    hide At;
    hide AddedRow;
    ghost var m := RowsOf(ata[..], dim);
    ghost var goal := AddedRow(m[i], c, xrow[..]);
    ghost var r := m[i];
    for k := 0 to dim
      invariant |r| == dim && RowsOf(ata[..], dim) == m[i := r]
      invariant forall j :: 0 <= j < k ==> r[j] == goal[j]
      invariant forall j :: k <= j < dim ==> r[j] == m[i][j]
    {
      var slot := At(ata[..], dim, i, k);
      RowsAt(ata[..], dim, i, k);
      AddedCell(m[i], c, xrow[..], k);
      ghost var l := RowsOf(ata[..], dim);
      var value := slot + c * xrow[k];
      SetEntry(ata, dim, i, k, value);
      ghost var r' := r[k := value];
      assert l[i := l[i][k := value]] == l[i := r'];
      assert RowsOf(ata[..], dim) == l[i := r'];
      assert l[i := r'] == m[i := r'];
      r := r';
    }
    assert r == goal;
  }

  /** What one sample with design row x and weight w adds to row i. */
  ghost predicate RowAdded(m: Matrix, m': Matrix, dim: nat, x: Vector, w: real, i: nat)
    requires Square(m, dim) && Square(m', dim) && |x| == dim && i < dim
  {
    m'[i] == AddedRow(m[i], w * x[i], x)
  }

  ghost predicate MomentAdded(b: Vector, b': Vector, x: Vector, w: real, target: real, i: nat)
    requires |b| == |b'| == |x| && i < |x|
  {
    b'[i] == b[i] + (w * x[i]) * target
  }

  lemma RowAddedNew(m: Matrix, m': Matrix, dim: nat, x: Vector, w: real, i: nat, c: real)
    requires Square(m, dim) && Square(m', dim) && |x| == dim && i < dim
    requires c == w * x[i] && m'[i] == AddedRow(m[i], c, x)
    ensures RowAdded(m, m', dim, x, w, i)
  {
  }

  lemma RowAddedKept(m: Matrix, before: Matrix, after: Matrix, dim: nat, x: Vector, w: real, i: nat)
    requires Square(m, dim) && Square(before, dim) && Square(after, dim) && |x| == dim && i < dim
    requires RowAdded(m, before, dim, x, w, i) && after[i] == before[i]
    ensures RowAdded(m, after, dim, x, w, i)
  {
  }

  lemma MomentAddedNew(b: Vector, b': Vector, x: Vector, w: real, target: real, i: nat, c: real)
    requires |b| == |b'| == |x| && i < |x|
    requires c == w * x[i] && b'[i] == b[i] + c * target
    ensures MomentAdded(b, b', x, w, target, i)
  {
  }

  lemma MomentAddedKept(b: Vector, before: Vector, after: Vector, x: Vector, w: real, target: real, i: nat)
    requires |b| == |before| == |after| == |x| && i < |x|
    requires MomentAdded(b, before, x, w, target, i) && after[i] == before[i]
    ensures MomentAdded(b, after, x, w, target, i)
  {
  }

  /** The contribution of one sample with design row xrow. */
  method AddSample(ata: array<real>, aty: array<real>, dim: nat, xrow: array<real>, weight: Option<real>, target: real)
    requires ata.Length == dim * dim && aty.Length == dim && xrow.Length == dim
    requires ata != aty && ata != xrow && aty != xrow
    modifies ata, aty
    ensures var w := if weight.Some? then weight.value else 1.0;
      forall i: nat :: i < dim ==>
        && RowAdded(RowsOf(old(ata[..]), dim), RowsOf(ata[..], dim), dim, xrow[..], w, i)
        && MomentAdded(old(aty[..]), aty[..], xrow[..], w, target, i)
  {
    hide RowsOf;
    hide RowAdded;
    hide MomentAdded;
    ghost var m, b, x := RowsOf(ata[..], dim), aty[..], xrow[..];
    ghost var w := if weight.Some? then weight.value else 1.0;
    for i := 0 to dim
      invariant xrow[..] == x
      invariant forall j: nat :: j < i ==> RowAdded(m, RowsOf(ata[..], dim), dim, x, w, j)
      invariant forall j :: i <= j < dim ==> RowsOf(ata[..], dim)[j] == m[j]
      invariant forall j: nat :: j < i ==> MomentAdded(b, aty[..], x, w, target, j)
      invariant forall j :: i <= j < dim ==> aty[j] == b[j]
    {
      var xi := xrow[i];
      var wxi := match weight case None => xi case Some(v) => v * xi;
      ghost var before := RowsOf(ata[..], dim);
      AddToRow(ata, dim, i, wxi, xrow);
      ghost var after := ata[..];
      forall j: nat | j <= i
        ensures RowAdded(m, RowsOf(after, dim), dim, x, w, j)
      {
        if j == i {
          RowAddedNew(m, RowsOf(after, dim), dim, x, w, i, wxi);
        } else {
          RowAddedKept(m, before, RowsOf(after, dim), dim, x, w, j);
        }
      }
      ghost var moments := aty[..];
      aty[i] := aty[i] + wxi * target;
      assert ata[..] == after;
      forall j: nat | j <= i
        ensures MomentAdded(b, aty[..], x, w, target, j)
      {
        if j == i {
          MomentAddedNew(b, aty[..], x, w, target, i, wxi);
        } else {
          MomentAddedKept(b, moments, aty[..], x, w, target, j);
        }
      }
      assert forall j: nat :: j < i + 1 ==> RowAdded(m, RowsOf(ata[..], dim), dim, x, w, j);
    }
  }

  method FillDesign(xrow: array<real>, z: Vector)
    modifies xrow
    ensures xrow[..] == Design(z, xrow.Length)
  {
    for j := 0 to xrow.Length
      invariant forall i :: 0 <= i < j ==> xrow[i] == DesignCell(z, i)
    {
      xrow[j] := if j == 0 then 1.0 else Cell(z, j - 1);
    }
  }

  lemma GramAdded(samples: seq<Sample>, w: Vector, dim: nat, n: nat, m': Matrix)
    requires n < |samples| && n < |w| && Square(m', dim)
    requires forall i: nat :: i < dim ==>
      RowAdded(Gram(samples, w, dim, n), m', dim, Design(samples[n].row, dim), w[n], i)
    ensures m' == Gram(samples, w, dim, n + 1)
  {
    hide Gram;
    hide Design;
    var x := Design(samples[n].row, dim);
    var m, g := Gram(samples, w, dim, n), Gram(samples, w, dim, n + 1);
    forall i: nat | i < dim
      ensures m'[i] == g[i]
    {
      assert RowAdded(m, m', dim, x, w[n], i);
      forall k: nat | k < dim
        ensures m'[i][k] == g[i][k]
      {
        AddedCell(m[i], w[n] * x[i], x, k);
        GramStep(samples, w, dim, n, i, k);
      }
    }
  }

  lemma MomentsAdded(samples: seq<Sample>, w: Vector, dim: nat, n: nat, b': Vector)
    requires n < |samples| && n < |w| && |b'| == dim
    requires forall i: nat :: i < dim ==>
      MomentAdded(Moments(samples, w, dim, n), b', Design(samples[n].row, dim), w[n], samples[n].target, i)
    ensures b' == Moments(samples, w, dim, n + 1)
  {
    hide Moments;
    hide Design;
    var x := Design(samples[n].row, dim);
    forall i: nat | i < dim
      ensures b'[i] == Moments(samples, w, dim, n + 1)[i]
    {
      assert MomentAdded(Moments(samples, w, dim, n), b', x, w[n], samples[n].target, i);
      MomentStep(samples, w, dim, n, i);
      SwapProduct(w[n], x[i], samples[n].target);
    }
  }

  lemma SwapProduct(a: real, b: real, c: real)
    ensures (a * b) * c == (a * c) * b
  {
  }

  lemma PenaltyStep(m: Matrix, dim: nat, penalty: real, n: nat, l: Matrix)
    requires Square(m, dim) && Square(l, dim) && 0 < n < dim
    requires forall i: nat :: i < dim ==> l[i] == if i < n then Penalized(m, dim, penalty)[i] else m[i]
    ensures forall i: nat :: i < dim ==>
      l[n := l[n][n := l[n][n] + penalty]][i] == if i < n + 1 then Penalized(m, dim, penalty)[i] else m[i]
  {
    assert l[n][n := l[n][n] + penalty] == Penalized(m, dim, penalty)[n];
  }

  /** Adds the penalty on the diagonal, except at the intercept. */
  method AddPenalty(ata: array<real>, dim: nat, penalty: real)
    requires ata.Length == dim * dim && dim > 0
    modifies ata
    ensures RowsOf(ata[..], dim) == Penalized(RowsOf(old(ata[..]), dim), dim, penalty)
  {
    hide RowsOf;
    hide At;
    ghost var m := RowsOf(ata[..], dim);
    assert Penalized(m, dim, penalty)[0] == m[0];
    for i := 1 to dim
      invariant forall j: nat :: j < dim ==>
        RowsOf(ata[..], dim)[j] == if j < i then Penalized(m, dim, penalty)[j] else m[j]
    {
      var slot := At(ata[..], dim, i, i);
      RowsAt(ata[..], dim, i, i);
      PenaltyStep(m, dim, penalty, i, RowsOf(ata[..], dim));
      SetEntry(ata, dim, i, i, slot + penalty);
    }
  }

  /** The penalized normal equations of standardized rows. */
  method WeightedNormalEquations(rows: seq<Vector>, targets: Vector, weights: Option<Vector>, featureCount: nat, penalty: real)
    returns (ata: seq<real>, aty: seq<real>)
    ensures var samples := Paired(rows, targets);
      var w := SampleWeights(weights, |samples|);
      && RowsOf(ata, featureCount + 1) == NormalMatrix(samples, w, penalty, featureCount + 1)
      && VectorOf(aty, featureCount + 1) == NormalVector(samples, w, featureCount + 1)
  {
    hide RowsOf;
    hide Gram;
    hide Moments;
    hide Design;
    hide RowAdded;
    hide MomentAdded;
    hide Penalized;
    var dim := featureCount + 1;
    ghost var samples := Paired(rows, targets);
    ghost var w := SampleWeights(weights, |samples|);
    var a := new real[dim * dim](_ => 0.0);
    var b := new real[dim](_ => 0.0);
    var xrow := new real[dim](_ => 0.0);
    EmptyNormal(samples, w, dim, a[..], b[..]);
    for n := 0 to if |rows| <= |targets| then |rows| else |targets|
      invariant RowsOf(a[..], dim) == Gram(samples, w, dim, n)
      invariant b[..] == Moments(samples, w, dim, n)
    {
      ghost var a0, b0 := a[..], b[..];
      FillDesign(xrow, rows[n]);
      assert a[..] == a0 && b[..] == b0 && xrow[..] == Design(samples[n].row, dim);
      var weight := match weights case None => None case Some(v) => Some(Entry(v, n));
      assert w[n] == if weight.Some? then weight.value else 1.0;
      ghost var x := xrow[..];
      AddSample(a, b, dim, xrow, weight, targets[n]);
      assert xrow[..] == x;
      GramAdded(samples, w, dim, n, RowsOf(a[..], dim));
      MomentsAdded(samples, w, dim, n, b[..]);
    }
    AddPenalty(a, dim, penalty);
    ata, aty := a[..], b[..];
    assert VectorOf(aty, dim) == aty;
  }

  lemma EmptyNormal(samples: seq<Sample>, w: Vector, dim: nat, a: seq<real>, b: seq<real>)
    requires |a| == dim * dim && |b| == dim
    requires IsZero(a) && IsZero(b)
    ensures RowsOf(a, dim) == Gram(samples, w, dim, 0)
    ensures b == Moments(samples, w, dim, 0)
  {
    forall i: nat | i < dim
      ensures RowsOf(a, dim)[i] == Gram(samples, w, dim, 0)[i]
    {
    }
  }

  // --- Fit --------------------------------------------------------------------------------

  ghost predicate GoodWeights(weights: Option<Vector>, count: nat) {
    weights.Some? ==>
      && |weights.value| == count
      && (forall i :: 0 <= i < count ==> weights.value[i] >= 0.0)
      && Total(weights.value, count) > 0.0
  }

  function SampleCount(data: TrainingData): nat {
    if |data.rows| <= |data.targets| then |data.rows| else |data.targets|
  }

  /** Enough samples, a feature, and usable weights. */
  ghost predicate Fittable(data: TrainingData, weights: Option<Vector>) {
    && SampleCount(data) >= MIN_FIT_SAMPLES
    && data.featureCount > 0
    && GoodWeights(weights, SampleCount(data))
  }

  function Transformed(target: real, transform: PriceTransform, math: Elementary): real {
    match transform case Arcsinh => math.asinh(target) case NoTransform => target
  }

  ghost function TransformOf(transform: PriceTransform, math: Elementary): real -> real {
    (target: real) => Transformed(target, transform, math)
  }

  ghost function StandardizeBy(s: Standardizer): Vector -> Vector
    requires s.Valid()
  {
    (row: Vector) => s.Standardize(row)
  }

  ghost function FitStandardizer(data: TrainingData, weights: Option<Vector>, math: Elementary): (s: Standardizer)
    ensures s.Valid() && |s.means| == data.featureCount
  {
    var n := SampleCount(data);
    ColumnMoments(data.rows[..n], SampleWeights(weights, n), data.featureCount, math.sqrt)
  }

  /** The standardized, transformed samples that the normal equations read. */
  ghost function FitSamples(data: TrainingData, weights: Option<Vector>, opts: FitOptions, math: Elementary): (r: seq<Sample>)
    ensures |r| == SampleCount(data)
  {
    var n := SampleCount(data);
    Paired(Mapped(StandardizeBy(FitStandardizer(data, weights, math)), data.rows[..n]),
           Mapped(TransformOf(opts.transform, math), data.targets[..n]))
  }

  ghost function FitMatrix(data: TrainingData, weights: Option<Vector>, opts: FitOptions, math: Elementary): (a: Matrix)
    ensures Square(a, data.featureCount + 1)
  {
    NormalMatrix(FitSamples(data, weights, opts, math), SampleWeights(weights, SampleCount(data)),
                 opts.ridgeLambda, data.featureCount + 1)
  }

  ghost function FitVector(data: TrainingData, weights: Option<Vector>, opts: FitOptions, math: Elementary): (b: Vector)
    ensures |b| == data.featureCount + 1
  {
    NormalVector(FitSamples(data, weights, opts, math), SampleWeights(weights, SampleCount(data)), data.featureCount + 1)
  }

  /** The coefficient vector of a linear model: the intercept first. */
  function Beta(fitted: Fitted): Vector
    requires fitted.Linear?
  {
    [fitted.intercept] + fitted.coefficients
  }

  /** The model is the fallback without a usable system; else it holds the
      moments and an exact solution of the normal equations. */
  ghost predicate IsFit(data: TrainingData, weights: Option<Vector>, opts: FitOptions, math: Elementary, model: FittedModel) {
    var usable := Fittable(data, weights)
               && NumericallyPositive(FitMatrix(data, weights, opts, math), data.featureCount + 1);
    && model.meta == FitMeta(!usable, SampleCount(data), data.featureCount)
    && (!usable ==> model.fitted == Fallback)
    && (usable ==>
          && model.fitted.Linear?
          && model.fitted.standardizer == FitStandardizer(data, weights, math)
          && model.fitted.transform == opts.transform
          && Solves(FitMatrix(data, weights, opts, math), data.featureCount + 1,
                    FitVector(data, weights, opts, math), Beta(model.fitted)))
  }

  /** Whether the data can be fitted at all. */
  method CheckFittable(data: TrainingData, weights: Option<Vector>) returns (ok: bool)
    ensures ok == Fittable(data, weights)
  {
    var n := SampleCount(data);
    if n < MIN_FIT_SAMPLES || data.featureCount == 0 {
      return false;
    }
    if weights.Some? {
      var w := weights.value;
      if |w| != n || exists i :: 0 <= i < |w| && w[i] < 0.0 {
        return false;
      }
      var total := TotalWeight(w);
      if total <= 0.0 {
        return false;
      }
    }
    ok := true;
  }

  /** The moments and the normal equations of the fit. */
  method BuildSystem(data: TrainingData, weights: Option<Vector>, opts: FitOptions, math: Elementary)
    returns (standardizer: Standardizer, ata: seq<real>, aty: seq<real>)
    requires Fittable(data, weights)
    ensures standardizer == FitStandardizer(data, weights, math)
    ensures RowsOf(ata, data.featureCount + 1) == FitMatrix(data, weights, opts, math)
    ensures VectorOf(aty, data.featureCount + 1) == FitVector(data, weights, opts, math)
  {
    hide ColumnMoments;
    hide NormalMatrix;
    hide NormalVector;
    hide RowsOf;
    hide VectorOf;
    hide Total;
    var n := SampleCount(data);
    var rows, targets := data.rows[..n], data.targets[..n];
    if weights.None? {
      assert SampleWeights(weights, n) == Ones(n);
      standardizer := FromRows(rows, data.featureCount, math.sqrt);
    } else {
      assert SampleWeights(weights, n) == weights.value;
      standardizer := FromWeightedRows(rows, weights.value, data.featureCount, math.sqrt);
    }
    var zRows := seq(n, i requires 0 <= i < n => standardizer.Standardize(rows[i]));
    var fitTargets := seq(n, i requires 0 <= i < n => Transformed(targets[i], opts.transform, math));
    assert zRows == Mapped(StandardizeBy(standardizer), rows);
    assert fitTargets == Mapped(TransformOf(opts.transform, math), targets);
    ata, aty := WeightedNormalEquations(zRows, fitTargets, weights, data.featureCount, opts.ridgeLambda);
  }

  lemma FitMatrixIsSymmetric(data: TrainingData, weights: Option<Vector>, opts: FitOptions, math: Elementary)
    ensures Symmetric(FitMatrix(data, weights, opts, math), data.featureCount + 1)
  {
    NormalIsSymmetric(FitSamples(data, weights, opts, math), SampleWeights(weights, SampleCount(data)),
                      opts.ridgeLambda, data.featureCount + 1);
  }

  method Fit(data: TrainingData, weights: Option<Vector>, opts: FitOptions, math: Elementary)
    returns (model: FittedModel)
    requires ExactSqrt(math.sqrt)
    ensures IsFit(data, weights, opts, math, model)
  {
    hide FitMatrix;
    hide FitVector;
    hide FitStandardizer;
    hide NumericallyPositive;
    hide Solves;
    hide RowsOf;
    hide VectorOf;
    hide Fittable;
    var n := SampleCount(data);
    var fallback := FittedModel(FitMeta(true, n, data.featureCount), Fallback);
    var fittable := CheckFittable(data, weights);
    if !fittable {
      return fallback;
    }
    var standardizer, ata, aty := BuildSystem(data, weights, opts, math);
    FitMatrixIsSymmetric(data, weights, opts, math);
    ReflectedOfSymmetric(ata, data.featureCount + 1);
    var beta := SolveSpd(ata, aty, data.featureCount + 1, math.sqrt);
    if beta.None? {
      return fallback;
    }
    SolutionLength(FitMatrix(data, weights, opts, math), data.featureCount + 1, VectorOf(aty, data.featureCount + 1), beta.value);
    model := FittedModel(FitMeta(false, n, data.featureCount),
                         Linear(beta.value[0], beta.value[1..], standardizer, opts.transform));
    assert Beta(model.fitted) == beta.value;
  }

  lemma NormalIsSymmetric(samples: seq<Sample>, w: Vector, penalty: real, dim: nat)
    requires |samples| == |w|
    ensures Symmetric(NormalMatrix(samples, w, penalty, dim), dim)
  {
    GramIsSymmetric(samples, w, dim, |w|, penalty);
  }

  lemma SolutionLength(a: Matrix, dim: nat, b: Vector, x: Vector)
    requires Square(a, dim) && |b| == dim && Solves(a, dim, b, x)
    ensures |x| == dim
  {
  }

  // --- Prediction ---------------------------------------------------------------------------

  function Inverted(value: real, transform: PriceTransform, math: Elementary): real {
    match transform case Arcsinh => math.sinh(value) case NoTransform => value
  }

  function ShorterOf(u: Vector, v: Vector): nat {
    if |u| <= |v| then |u| else |v|
  }

  ghost function PredictionOf(fitted: Fitted, x: Vector, math: Elementary): real
    requires fitted.Linear? ==> fitted.standardizer.Valid()
  {
    match fitted
    case Fallback => FALLBACK_PREDICTION
    case Linear(intercept, coefficients, standardizer, transform) =>
      var z := standardizer.Standardize(x);
      Inverted(intercept + Dot(coefficients, z, ShorterOf(coefficients, z)), transform, math)
  }

  ghost predicate InverseTransforms(math: Elementary) {
    forall x: real :: math.asinh(math.sinh(x)) == x && math.sinh(math.asinh(x)) == x
  }

  /** p is a price: on the scale that the targets of the fit have, it is the
      linear form of the standardized row. */
  ghost predicate IsPrediction(fitted: Fitted, x: Vector, math: Elementary, p: real)
    requires fitted.Linear? ==> fitted.standardizer.Valid()
  {
    match fitted
    case Fallback => p == 3.0
    case Linear(intercept, coefficients, standardizer, transform) =>
      var z := standardizer.Standardize(x);
      var scaled := if transform.Arcsinh? then math.asinh(p) else p;
      scaled == intercept + Dot(coefficients, z, ShorterOf(coefficients, z))
  }

  method Predict(model: FittedModel, x: Vector, math: Elementary) returns (prediction: real)
    requires model.fitted.Linear? ==> model.fitted.standardizer.Valid()
    ensures prediction == PredictionOf(model.fitted, x, math)
    ensures InverseTransforms(math) ==> IsPrediction(model.fitted, x, math, prediction)
  {
    match model.fitted
    case Fallback => prediction := FALLBACK_PREDICTION;
    case Linear(intercept, coefficients, standardizer, transform) =>
      var z := standardizer.Standardize(x);
      var acc := intercept;
      for n := 0 to ShorterOf(coefficients, z)
        invariant acc == intercept + Dot(coefficients, z, n)
      {
        acc := acc + coefficients[n] * z[n];
      }
      prediction := Inverted(acc, transform, math);
  }
}
