/** What the ridge fit means: its coefficients are the one best vector, the
    fallback is only for unusable data, and a weight is a repetition. */
module RidgeTheorems {
  import opened Common
  import opened LinearAlgebra
  import opened WeightedSums
  import opened Cholesky
  import opened NormalEquations
  import opened Ridge

  /** The cost of the coefficients `beta` on the training data. */
  ghost function FitCost(data: TrainingData, weights: Option<Vector>, opts: FitOptions, math: Elementary, beta: Vector): real {
    Cost(FitSamples(data, weights, opts, math), SampleWeights(weights, SampleCount(data)), opts.ridgeLambda, beta)
  }

  /** A fit that does not fall back costs less than every other coefficient
      vector, by exactly the quadratic form of the distance. */
  lemma FitMinimises(data: TrainingData, weights: Option<Vector>, opts: FitOptions, math: Elementary, model: FittedModel, other: Vector)
    requires IsFit(data, weights, opts, math, model) && !model.meta.usedFallback
    requires |other| == data.featureCount + 1
    ensures model.fitted.Linear? && |Beta(model.fitted)| == |other|
    ensures FitCost(data, weights, opts, math, other)
         == FitCost(data, weights, opts, math, Beta(model.fitted))
          + Quadratic(FitMatrix(data, weights, opts, math), |other|, Minus(other, Beta(model.fitted)))
    ensures other != Beta(model.fitted) ==>
      FitCost(data, weights, opts, math, other) > FitCost(data, weights, opts, math, Beta(model.fitted))
  {
    hide NumericallyPositive;
    hide FitSamples;
    hide Cost;
    hide NormalMatrix;
    hide NormalVector;
    SolutionLength(FitMatrix(data, weights, opts, math), |other|, FitVector(data, weights, opts, math), Beta(model.fitted));
    SolutionMinimises(FitSamples(data, weights, opts, math), SampleWeights(weights, SampleCount(data)),
                      opts.ridgeLambda, |other|, Beta(model.fitted), other);
  }

  /** With a penalty and a total weight above 10^-12, the fit
      falls back exactly when the data are not fittable: the solver never is
      the reason. */
  lemma FallbackOnlyWhenUnfittable(data: TrainingData, weights: Option<Vector>, opts: FitOptions, math: Elementary, model: FittedModel)
    requires IsFit(data, weights, opts, math, model)
    requires opts.ridgeLambda > 0.000000000001
    requires weights.Some? ==> Total(weights.value, |weights.value|) > 0.000000000001
    ensures model.meta.usedFallback <==> !Fittable(data, weights)
    ensures !model.meta.usedFallback <==>
      && |data.rows| >= 24 && |data.targets| >= 24 && data.featureCount > 0
      && (weights.Some? ==>
           && (|weights.value| == |data.rows| <= |data.targets| || |weights.value| == |data.targets| <= |data.rows|)
           && (forall i :: 0 <= i < |weights.value| ==> weights.value[i] >= 0.0))
  {
    if Fittable(data, weights) {
      var n := SampleCount(data);
      var w := SampleWeights(weights, n);
      if weights.None? {
        assert w == Ones(n);
        TotalOfOnes(n, n);
      } else {
        assert w == weights.value;
      }
      NormalMatrixIsPositive(FitSamples(data, weights, opts, math), w, opts.ridgeLambda, data.featureCount + 1);
    }
  }

  // --- Rows of any length -----------------------------------------------------------------------

  function Padded(row: Vector, zeros: nat): Vector {
    row + seq(zeros, _ => 0.0)
  }

  /** A row that is too short is the same row with zeros, in training and in
      prediction; what a row holds past the features is not read. */
  lemma RowsAreReadAsPadded(row: Vector, rest: Vector, zeros: nat, s: Standardizer, dim: nat)
    requires s.Valid()
    ensures Design(Padded(row, zeros), dim) == Design(row, dim)
    ensures s.Standardize(Padded(row, zeros)) == s.Standardize(row)
    ensures |row| >= |s.means| ==> s.Standardize(row + rest) == s.Standardize(row)
  {
    forall j: nat
      ensures Cell(Padded(row, zeros), j) == Cell(row, j)
      ensures j < |row| ==> Cell(row + rest, j) == Cell(row, j)
    {
    }
  }

  // --- What the predictions are worth -------------------------------------------------------

  /** The weighted squared error of the first n predictions, on the scale of the fit. */
  ghost function PredictionError(targets: Vector, predictions: Vector, w: Vector, transform: PriceTransform, math: Elementary, n: nat): real
    requires n <= |targets| && n <= |predictions| && n <= |w|
  {
    if n == 0 then 0.0
    else
      var y, p := targets[n - 1], predictions[n - 1];
      PredictionError(targets, predictions, w, transform, math, n - 1)
      + Times(w[n - 1], Squared(Transformed(y, transform, math) - Transformed(p, transform, math)))
  }

  lemma {:induction false} DotShift(z: Vector, beta: Vector, n: nat)
    requires n <= |z| && |beta| == |z| + 1
    ensures Dot(Design(z, |beta|), beta, n + 1) == beta[0] + Dot(beta[1..], z, n)
  {
    var x := Design(z, |beta|);
    if n == 0 {
      DotLast(x, beta, 0);
    } else {
      DotShift(z, beta, n - 1);
      DotLast(x, beta, n);
      assert x[n] == z[n - 1] && beta[1..][n - 1] == beta[n];
    }
  }

  /** The cost of the coefficients after the intercept. */
  lemma {:induction false} PenaltyOfTail(beta: Vector, n: nat)
    requires n < |beta|
    ensures Dot(beta, beta, n + 1) == beta[0] * beta[0] + Dot(beta[1..], beta[1..], n)
  {
    DotLast(beta, beta, n);
    if n > 0 {
      PenaltyOfTail(beta, n - 1);
    }
  }

  /** A prediction is the price whose scaled value is the design row times the
      coefficients. */
  lemma PredictionIsDesign(fitted: Fitted, x: Vector, math: Elementary, p: real)
    requires fitted.Linear? && fitted.standardizer.Valid() && |fitted.coefficients| == |fitted.standardizer.means|
    requires IsPrediction(fitted, x, math, p)
    ensures var z := fitted.standardizer.Standardize(x);
      Transformed(p, fitted.transform, math) == Dot(Design(z, |z| + 1), Beta(fitted), |z| + 1)
  {
    var z, beta := fitted.standardizer.Standardize(x), Beta(fitted);
    DotShift(z, beta, |z|);
    assert beta[1..] == fitted.coefficients;
  }

  lemma FitSampleAt(data: TrainingData, weights: Option<Vector>, opts: FitOptions, math: Elementary, i: nat)
    requires i < SampleCount(data)
    ensures FitSamples(data, weights, opts, math)[i]
         == Sample(FitStandardizer(data, weights, math).Standardize(data.rows[i]), Transformed(data.targets[i], opts.transform, math))
  {
    hide FitStandardizer;
  }

  /** A linear model over the standardizer of the fit, with as many coefficients. */
  ghost predicate SameForm(data: TrainingData, weights: Option<Vector>, opts: FitOptions, math: Elementary, fitted: Fitted) {
    && fitted.Linear? && fitted.transform == opts.transform
    && fitted.standardizer == FitStandardizer(data, weights, math)
    && |fitted.coefficients| == data.featureCount
  }

  ghost predicate ArePredictions(data: TrainingData, fitted: Fitted, math: Elementary, predictions: Vector)
    requires fitted.Linear? ==> fitted.standardizer.Valid()
  {
    |predictions| == SampleCount(data)
    && forall i :: 0 <= i < |predictions| ==> IsPrediction(fitted, data.rows[i], math, predictions[i])
  }

  lemma {:induction false} ErrorIsCost(data: TrainingData, weights: Option<Vector>, opts: FitOptions, math: Elementary,
                                       fitted: Fitted, predictions: Vector, n: nat)
    requires SameForm(data, weights, opts, math, fitted) && ArePredictions(data, fitted, math, predictions)
    requires n <= SampleCount(data)
    ensures var w := SampleWeights(weights, SampleCount(data));
      PredictionError(data.targets, predictions, w, opts.transform, math, n)
      == Sum(SquaredResidualOf(Beta(fitted)), FitSamples(data, weights, opts, math), w, n)
  {
    hide FitSamples, FitStandardizer, Design, Dot, Transformed, IsPrediction;
    if n > 0 {
      ErrorIsCost(data, weights, opts, math, fitted, predictions, n - 1);
      FitSampleAt(data, weights, opts, math, n - 1);
      PredictionIsDesign(fitted, data.rows[n - 1], math, predictions[n - 1]);
    }
  }

  /** What the fit costs is the weighted squared error of its predictions, on the
      scale of the fit, and the size of its coefficients. */
  lemma CostIsPredictionError(data: TrainingData, weights: Option<Vector>, opts: FitOptions, math: Elementary,
                              fitted: Fitted, predictions: Vector)
    requires SameForm(data, weights, opts, math, fitted) && ArePredictions(data, fitted, math, predictions)
    ensures FitCost(data, weights, opts, math, Beta(fitted))
         == PredictionError(data.targets, predictions, SampleWeights(weights, SampleCount(data)), opts.transform, math, SampleCount(data))
          + opts.ridgeLambda * Dot(fitted.coefficients, fitted.coefficients, data.featureCount)
  {
    hide FitSamples, FitStandardizer, IsPrediction, Sum, Dot;
    ErrorIsCost(data, weights, opts, math, fitted, predictions, SampleCount(data));
    PenaltyOfTail(Beta(fitted), data.featureCount);
    assert Beta(fitted)[1..] == fitted.coefficients;
  }

  /** The fit minimises the error of its own predictions: any other model of its
      form predicts the training targets worse, or has larger coefficients for it. */
  lemma FitPredictsBest(data: TrainingData, weights: Option<Vector>, opts: FitOptions, math: Elementary, model: FittedModel,
                        predictions: Vector, other: Fitted, others: Vector)
    requires IsFit(data, weights, opts, math, model) && !model.meta.usedFallback
    requires ArePredictions(data, model.fitted, math, predictions)
    requires SameForm(data, weights, opts, math, other) && other != model.fitted
    requires ArePredictions(data, other, math, others)
    ensures SameForm(data, weights, opts, math, model.fitted)
    ensures var w, n := SampleWeights(weights, SampleCount(data)), SampleCount(data);
      PredictionError(data.targets, predictions, w, opts.transform, math, n)
        + opts.ridgeLambda * Dot(model.fitted.coefficients, model.fitted.coefficients, data.featureCount)
      < PredictionError(data.targets, others, w, opts.transform, math, n)
        + opts.ridgeLambda * Dot(other.coefficients, other.coefficients, data.featureCount)
  {
    hide FitStandardizer, FitMatrix, FitVector, FitCost, PredictionError, Dot, NumericallyPositive, ArePredictions, Fittable;
    FitMinimises(data, weights, opts, math, model, Beta(other));
    assert Beta(other)[0] == other.intercept && Beta(other)[1..] == other.coefficients;
    assert Beta(model.fitted)[0] == model.fitted.intercept && Beta(model.fitted)[1..] == model.fitted.coefficients;
    CostIsPredictionError(data, weights, opts, math, model.fitted, predictions);
    CostIsPredictionError(data, weights, opts, math, other, others);
  }

  // --- The standardized columns ----------------------------------------------------------------

  ghost function SquaredCellOf(j: nat): Vector -> real {
    (row: Vector) => Squared(Cell(row, j))
  }

  lemma StandardizedCell(s: Standardizer, row: Vector, j: nat, w: real)
    requires s.Valid() && j < |s.means|
    ensures var z, d := Cell(s.Standardize(row), j), Cell(row, j) - s.means[j];
      && s.scales[j] * z == d
      && Times(s.scales[j], Times(w, z)) == Times(w, Cell(row, j)) - Times(w, s.means[j])
      && Times(Squared(s.scales[j]), Times(w, Squared(z))) == Times(w, Squared(d))
  {
    var c, z, d := s.scales[j], Cell(s.Standardize(row), j), Cell(row, j) - s.means[j];
    assert z == d / c;
    assert c * z == d;
    assert c * (w * z) == w * (c * z) == w * d;
    assert (c * c) * (w * (z * z)) == w * ((c * z) * (c * z));
  }

  lemma {:induction false} StandardizedSum(s: Standardizer, rows: seq<Vector>, w: Vector, j: nat, n: nat)
    requires s.Valid() && j < |s.means| && n <= |rows| && n <= |w|
    ensures Times(s.scales[j], Sum(CellOf(j), Mapped(StandardizeBy(s), rows), w, n))
         == Sum(CellOf(j), rows, w, n) - Times(Total(w, n), s.means[j])
  {
    hide Times, Squared, Standardizer.Standardize, Cell;
    NoTimes(s.scales[j], s.means[j]);
    if n > 0 {
      var z, row, v := Mapped(StandardizeBy(s), rows), rows[n - 1], w[n - 1];
      StandardizedSum(s, rows, w, j, n - 1);
      StandardizedCell(s, row, j, v);
      assert z[n - 1] == s.Standardize(row);
      Combined(s.scales[j], s.means[j], Sum(CellOf(j), z, w, n - 1), Times(v, Cell(s.Standardize(row), j)),
               Sum(CellOf(j), rows, w, n - 1), Times(v, Cell(row, j)), Total(w, n - 1), v);
    }
  }

  lemma {:induction false} StandardizedSquares(s: Standardizer, rows: seq<Vector>, w: Vector, j: nat, n: nat)
    requires s.Valid() && j < |s.means| && n <= |rows| && n <= |w|
    ensures Times(Squared(s.scales[j]), Sum(SquaredCellOf(j), Mapped(StandardizeBy(s), rows), w, n))
         == Sum(DeviationOf(j, s.means[j]), rows, w, n)
  {
    hide Squared, Standardizer.Standardize, Cell;
    if n > 0 {
      var z, row, v := Mapped(StandardizeBy(s), rows), rows[n - 1], w[n - 1];
      StandardizedSquares(s, rows, w, j, n - 1);
      StandardizedCell(s, row, j, v);
      assert z[n - 1] == s.Standardize(row);
      Combined(Squared(s.scales[j]), 0.0, Sum(SquaredCellOf(j), z, w, n - 1), Times(v, Squared(Cell(s.Standardize(row), j))),
               Sum(DeviationOf(j, s.means[j]), rows, w, n - 1), Times(v, Squared(Cell(row, j) - s.means[j])), 0.0, 0.0);
    }
  }

  lemma NoTimes(c: real, m: real)
    ensures Times(c, 0.0) == 0.0 && Times(0.0, m) == 0.0
  {
  }

  lemma Combined(c: real, m: real, x: real, dx: real, y: real, dy: real, t: real, dt: real)
    requires Times(c, x) == y - Times(t, m) && Times(c, dx) == dy - Times(dt, m)
    ensures Times(c, x + dx) == (y + dy) - Times(t + dt, m)
  {
    assert c * (x + dx) == c * x + c * dx;
    assert (t + dt) * m == t * m + dt * m;
  }

  /** The standardized training columns have weighted mean 0, and weighted variance
      1 except for a column that is flat up to the tolerance, which keeps its unit. */
  lemma ColumnsAreStandardized(rows: seq<Vector>, w: Vector, featureCount: nat, sqrt: real -> real, j: nat)
    requires ExactSqrt(sqrt) && |rows| == |w| && j < featureCount
    requires Total(w, |w|) > 0.0 && forall i :: 0 <= i < |w| ==> w[i] >= 0.0
    ensures var s := ColumnMoments(rows, w, featureCount, sqrt);
      var z := Mapped(StandardizeBy(s), rows);
      && Sum(CellOf(j), z, w, |w|) == 0.0
      && HasUnitVariance(Sum(SquaredCellOf(j), z, w, |w|), Total(w, |w|), s.scales[j])
  {
    var s, total := ColumnMoments(rows, w, featureCount, sqrt), Total(w, |w|);
    HasRows(rows, w);
    assert s.scales[j] > 0.0;
    hide *;
    var z := Mapped(StandardizeBy(s), rows);
    StandardizedSum(s, rows, w, j, |w|);
    StandardizedSquares(s, rows, w, j, |w|);
    DeviationsAreNotNegative(rows, w, j, s.means[j], |w|);
    var variance := MomentsAt(rows, w, featureCount, sqrt, j);
    FirstMoment(s.scales[j], Sum(CellOf(j), z, w, |w|), Sum(CellOf(j), rows, w, |w|), total, s.means[j]);
    SecondMoment(s.scales[j], Sum(SquaredCellOf(j), z, w, |w|), Sum(DeviationOf(j, s.means[j]), rows, w, |w|), variance, total, sqrt);
  }

  /** The squares average 1, or the column keeps its unit and they average at most
      the squared tolerance of 10^-12. */
  ghost predicate HasUnitVariance(squares: real, total: real, scale: real) {
    squares == total || (scale == 1.0 && squares <= 0.000000000000000000000001 * total)
  }

  lemma HasRows(rows: seq<Vector>, w: Vector)
    requires |rows| == |w| && Total(w, |w|) > 0.0
    ensures rows != []
  {
  }

  lemma MeanTimesTotal(rows: seq<Vector>, w: Vector, j: nat)
    requires |rows| == |w| && Total(w, |w|) > 0.0
    ensures Times(Total(w, |w|), ColumnMean(rows, w, j)) == Sum(CellOf(j), rows, w, |w|)
    ensures Times(Total(w, |w|), ColumnVariance(rows, w, j)) == Sum(DeviationOf(j, ColumnMean(rows, w, j)), rows, w, |w|)
  {
    hide Sum, Total;
  }

  lemma MomentsAt(rows: seq<Vector>, w: Vector, featureCount: nat, sqrt: real -> real, j: nat) returns (variance: real)
    requires rows != [] && |rows| == |w| && j < featureCount && Total(w, |w|) > 0.0
    ensures var s := ColumnMoments(rows, w, featureCount, sqrt);
      && Times(Total(w, |w|), s.means[j]) == Sum(CellOf(j), rows, w, |w|)
      && Times(Total(w, |w|), variance) == Sum(DeviationOf(j, s.means[j]), rows, w, |w|)
      && s.scales[j] == ScaleOf(sqrt(variance))
  {
    hide Sum, Total, ColumnMean, ColumnVariance, ScaleOf, Times;
    variance := ColumnVariance(rows, w, j);
    MeanTimesTotal(rows, w, j);
  }

  lemma {:induction false} DeviationsAreNotNegative(rows: seq<Vector>, w: Vector, j: nat, mean: real, n: nat)
    requires n <= |rows| && n <= |w| && forall i :: 0 <= i < n ==> w[i] >= 0.0
    ensures Sum(DeviationOf(j, mean), rows, w, n) >= 0.0
  {
    if n > 0 {
      DeviationsAreNotNegative(rows, w, j, mean, n - 1);
      var d := Squared(Cell(rows[n - 1], j) - mean);
      assert Times(w[n - 1], d) >= 0.0;
    }
  }

  lemma FirstMoment(scale: real, first: real, sum: real, total: real, mean: real)
    requires scale > 0.0 && Times(total, mean) == sum && Times(scale, first) == sum - Times(total, mean)
    ensures first == 0.0
  {
    Cancel(scale, first, 0.0);
  }

  lemma SecondMoment(scale: real, second: real, deviations: real, variance: real, total: real, sqrt: real -> real)
    requires ExactSqrt(sqrt) && total > 0.0 && Times(total, variance) == deviations && deviations >= 0.0
    requires scale == ScaleOf(sqrt(variance)) && Times(Squared(scale), second) == deviations
    ensures HasUnitVariance(second, total, scale)
  {
    if variance < 0.0 {
      var p := Times(-variance, total);
    }
    var std := sqrt(variance);
    assert std * std == variance;
    if std > SCALE_TOLERANCE {
      assert Squared(scale) == variance;
      assert Times(variance, total) == Times(total, variance);
      Cancel(variance, second, total);
    } else {
      SmallSquare(std);
      if variance < 0.000000000000000000000001 {
        var p := Times(0.000000000000000000000001 - variance, total);
      }
    }
  }

  lemma Cancel(a: real, x: real, y: real)
    requires a > 0.0 && Times(a, x) == Times(a, y)
    ensures x == y
  {
    if x > y {
      var p := Times(a, x - y);
    } else if x < y {
      var p := Times(a, y - x);
    }
  }

  lemma SmallSquare(x: real)
    requires 0.0 <= x <= SCALE_TOLERANCE
    ensures x * x <= 0.000000000000000000000001
  {
    var t := SCALE_TOLERANCE;
    assert Times(t - x, t + x) >= 0.0;
    assert (t - x) * (t + x) == t * t - x * x;
  }

  // --- Weights as repetitions ------------------------------------------------------------

  lemma {:induction false} PairedRepeat(rows: seq<Vector>, targets: Vector, counts: seq<nat>, n: nat)
    requires |rows| == |targets| == |counts| && n <= |counts|
    ensures |Repeat(rows, counts, n)| == |Repeat(targets, counts, n)|
    ensures Paired(Repeat(rows, counts, n), Repeat(targets, counts, n)) == Repeat(Paired(rows, targets), counts, n)
  {
    if n > 0 {
      PairedRepeat(rows, targets, counts, n - 1);
    }
  }

  lemma MomentsOfRepeated(rows: seq<Vector>, counts: seq<nat>, featureCount: nat, sqrt: real -> real)
    requires |rows| == |counts|
    ensures var all := Repeat(rows, counts, |counts|);
      ColumnMoments(all, Ones(|all|), featureCount, sqrt) == ColumnMoments(rows, Weights(counts), featureCount, sqrt)
  {
    var all := Repeat(rows, counts, |counts|);
    var w, ones := Weights(counts), Ones(|all|);
    TotalOfOnes(|all|, |all|);
    RepeatLength(rows, counts, |counts|);
    if Total(w, |w|) > 0.0 {
      forall j: nat | j < featureCount
        ensures ColumnMean(all, ones, j) == ColumnMean(rows, w, j)
        ensures ColumnVariance(all, ones, j) == ColumnVariance(rows, w, j)
      {
        SumOfRepeated(CellOf(j), rows, counts, |counts|);
        SumOfRepeated(DeviationOf(j, ColumnMean(rows, w, j)), rows, counts, |counts|);
      }
    }
  }

  lemma NormalOfRepeated(samples: seq<Sample>, counts: seq<nat>, penalty: real, dim: nat)
    requires |samples| == |counts|
    ensures var all := Repeat(samples, counts, |counts|);
      && NormalMatrix(all, Ones(|all|), penalty, dim) == NormalMatrix(samples, Weights(counts), penalty, dim)
      && NormalVector(all, Ones(|all|), dim) == NormalVector(samples, Weights(counts), dim)
  {
    var all := Repeat(samples, counts, |counts|);
    var g, g' := Gram(all, Ones(|all|), dim, |all|), Gram(samples, Weights(counts), dim, |counts|);
    forall i: nat | i < dim
      ensures g[i] == g'[i]
    {
      forall k: nat | k < dim
        ensures g[i][k] == g'[i][k]
      {
        SumOfRepeated(ProductOf(i, k), samples, counts, |counts|);
      }
    }
    assert g == g';
    forall i: nat | i < dim
      ensures Moments(all, Ones(|all|), dim, |all|)[i] == Moments(samples, Weights(counts), dim, |counts|)[i]
    {
      SumOfRepeated(MomentOf(i), samples, counts, |counts|);
    }
  }

  ghost function Repeated(data: TrainingData, counts: seq<nat>): TrainingData
    requires |data.rows| == |data.targets| == |counts|
  {
    TrainingData(data.featureCount, Repeat(data.rows, counts, |counts|), Repeat(data.targets, counts, |counts|))
  }

  /** The weighted system is the system of the repeated rows. */
  lemma SystemOfRepeated(data: TrainingData, counts: seq<nat>, opts: FitOptions, math: Elementary)
    requires |data.rows| == |data.targets| == |counts|
    ensures var all, w := Repeated(data, counts), Some(Weights(counts));
      && FitStandardizer(all, None, math) == FitStandardizer(data, w, math)
      && FitMatrix(all, None, opts, math) == FitMatrix(data, w, opts, math)
      && FitVector(all, None, opts, math) == FitVector(data, w, opts, math)
  {
    hide ColumnMoments;
    hide NormalMatrix;
    hide NormalVector;
    var n := |counts|;
    var all := Repeated(data, counts);
    PairedRepeat(data.rows, data.targets, counts, n);
    assert SampleWeights(None, SampleCount(all)) == Ones(SampleCount(all));
    assert SampleWeights(Some(Weights(counts)), n) == Weights(counts);
    assert all.rows[..SampleCount(all)] == all.rows && all.targets[..SampleCount(all)] == all.targets;
    assert data.rows[..n] == data.rows && data.targets[..n] == data.targets;
    MomentsOfRepeated(data.rows, counts, data.featureCount, math.sqrt);
    var s := StandardizeBy(FitStandardizer(all, None, math));
    var t := TransformOf(opts.transform, math);
    RepeatMapped(s, data.rows, counts, n);
    RepeatMapped(t, data.targets, counts, n);
    PairedRepeat(Mapped(s, data.rows), Mapped(t, data.targets), counts, n);
    NormalOfRepeated(FitSamples(data, Some(Weights(counts)), opts, math), counts, opts.ridgeLambda, data.featureCount + 1);
  }

  /** Fitting with the weight counts[i] on row i gives the model of the
      unweighted fit with row i repeated counts[i] times, whenever both have
      the minimum number of samples; so every prediction is the same. */
  lemma WeightsMeanRepetition(data: TrainingData, counts: seq<nat>, opts: FitOptions, math: Elementary,
                              weighted: FittedModel, repeated: FittedModel)
    requires |data.rows| == |data.targets| == |counts| >= MIN_FIT_SAMPLES
    requires |Repeated(data, counts).rows| >= MIN_FIT_SAMPLES
    requires IsFit(data, Some(Weights(counts)), opts, math, weighted)
    requires IsFit(Repeated(data, counts), None, opts, math, repeated)
    ensures weighted.fitted == repeated.fitted
    ensures weighted.meta.usedFallback == repeated.meta.usedFallback
  {
    hide FitMatrix;
    hide FitVector;
    hide FitStandardizer;
    hide NumericallyPositive;
    hide Repeat;
    SystemOfRepeated(data, counts, opts, math);
    RepeatLength(data.rows, counts, |counts|);
    PairedRepeat(data.rows, data.targets, counts, |counts|);
    if !weighted.meta.usedFallback {
      SolutionIsUnique(FitMatrix(data, Some(Weights(counts)), opts, math), data.featureCount + 1,
                       FitVector(data, Some(Weights(counts)), opts, math),
                       Beta(weighted.fitted), Beta(repeated.fitted));
      assert Beta(weighted.fitted)[0] == Beta(repeated.fitted)[0];
      assert Beta(weighted.fitted)[1..] == Beta(repeated.fitted)[1..];
    }
  }
}
