# Verification of the spot price forecast kernels

A Dafny 4.11 model of the numeric and temporal kernels of the spot price service, with proofs of what they
promise. Check it with `dafny verify dfyconfig.toml`.

| file | models |
|---|---|
| LinearAlgebra, Cholesky | vectors, matrices, and the in-place Cholesky solver over a row-major buffer |
| WeightedSums, NormalEquations, Ridge, RidgeTheorems | the standardizer, the weighted normal equations, the ridge fit and its predictor |
| Quarters, Publication | the 15-minute grid and the publication rule of day-ahead prices |
| Vintages, Ladders, LadderBlindness | the freshest forecast vintage per target, by one pass and by a sorted ladder |
| Backtest, BacktestReads | the inputs of an issue time, what they hold, the leakage guard, and non-interference |
| Tails, Grid | the tails and gaps of a grid dataset, and its whole series from the records |
| Features, FeatureColumns, Issuance | the feature row, each of its columns, and the training examples of earlier issuances |
| IssuanceTheorems, IssuanceSources | the blindness and completeness of training, and the data behind every row |
| Radix, NumberText | exact rounding of radix literals; the JavaScript number printer and parser |
| NumberGrammar, NumberForm | the accepted literals as a grammar, and the form of a printed number |
| Calendar, Computus, HistoryQuery | civil days, `Date.UTC`, Easter against the ecclesiastical moon, and the price history query |
| RateLimit, RateAnswers | the fixed-window limiter with a bounded map, and the limiter that never drops a window; what its answers promise over runs |
| Sorting, Rounding, Conformal | prediction bands from residuals, their coverage, and the calibration gate |
| Ranks | average ranks and the Spearman correlation |
| CheapestWindow, Schedule, ScheduleCosts | the cheapest price window, the cheapest feasible run, and the arms of an evaluation with their costs |
| DaySums, Shape, Correction | the within-day shape and the quarter correction |
| ForecastCache, CacheOrder | refreshers, database writers and readers of the shared result, as a state machine, and its runs in order |
| Common, Filtering, Ordered | options, filters, ascending key order |

Numbers are exact: `real` for the floating-point kernels, integers for the code that is exact in the service. The
square root, the hyperbolic sine and its inverse, and the angles of the cyclical features are parameters; the
contracts ask `sqrt(x)·sqrt(x) = x` for x ≥ 0 and strictly increasing inverses. Instants are integer UTC milliseconds.
A time zone is the start of each local day, or a day rule of the feature index. Ordered maps are finite maps that are
read in ascending key order.

## Findings

Where the code and its documentation differ, the model follows the code:

- The band of a point contains the point only when the point is on the grid of 0.001
  (crates/domain/src/forecast/conformal.rs:133): the bounds are rounded and the point is not.
- The cheapest window is the cheapest of the shortest long-enough runs, one per start; a longer run can be cheaper
  (crates/domain/src/price.rs:275). It is the cheapest of all runs exactly when no window with a shorter tail behind it
  is cheaper, and at all prices exactly when every long-enough run is made of whole windows.
- A history range that starts in the years 0 to 99 can pass the 31-day limit with more days
  (crates/domain/src/query.rs:460), because its start counts as a date of the 1900s. That is so exactly when it ends,
  from the year 100 on, up to 30 days after that date, or when it holds 32 days around 29 February of the year 0. The
  years alone rule it out exactly when the start is from 100, both are from 0 to 99 and the end is not 0, or the end is
  more than 1901 years later.
- With prices off the quarter grid, an unpublished price at the horizon can enter the inputs of an issue time
  (crates/tools/src/backtest.rs:185); the exact condition is that the origin lies past the horizon. The price parser
  does not check the alignment (crates/server/src/upstream/nordpool.rs:232).
- On equal issue times, the ladder takes the last vintage (crates/domain/src/forecast/issuance.rs:265) and the linear
  selection the first (crates/tools/src/backtest.rs:94). They agree at all values exactly when the newest issue time of
  the target occurs once.
- A result of the forecast cache can carry an earlier build instant than the one before it, because a refresh takes its
  clock reading before it waits for the lock (crates/server/src/forecast_cache.rs:316); its data are never older. The
  instants never go back exactly when the refreshes that publish get the lock in the order of their clock readings.
- The reads of a result are separate queries and can see different database versions
  (crates/server/src/forecast_cache.rs:142), exactly when a write falls between two of them.

## Model

| member | source | states |
|---|---|---|
| `Cholesky.Factorize` | crates/domain/src/forecast/model.rs:191-214 | the lower factor l of the lower triangle with l·lᵀ equal to it and every squared pivot above the tolerance; `None` only when the matrix is not numerically positive definite |
| `Cholesky.FactorRow` | crates/domain/src/forecast/model.rs:193-213 | fills one row left of the diagonal in place and keeps every finished row |
| `Cholesky.FactorPivot` | crates/domain/src/forecast/model.rs:194-213 | either completes the row with a positive diagonal entry, or stops at a pivot that shows the matrix is not numerically positive definite |
| `Cholesky.ForwardSubstitute` | crates/domain/src/forecast/model.rs:216-230 | l·y equals the right-hand side |
| `Cholesky.BackSubstitute` | crates/domain/src/forecast/model.rs:232-247 | lᵀ·x equals y |
| `Cholesky.SolveSpd` | crates/domain/src/forecast/model.rs:189-248 | there is an answer if and only if the matrix is numerically positive definite, and every answer solves the system exactly, for any dimension |
| `Cholesky.PivotWitness` | crates/domain/src/forecast/model.rs:198-202 | a rejected pivot is the value of the quadratic form on a concrete vector, so a rejection is never wrong |
| `Cholesky.FactoredIsPositive` | crates/domain/src/forecast/model.rs:191-214 | a complete factor makes the form exceed the tolerance on every vector that ends in 1 |
| `Cholesky.OneByOne` | crates/domain/src/forecast/model.rs:198-202 | one equation is solvable if and only if its coefficient is above 10^-12 |
| `Cholesky.SolutionIsUnique` | crates/domain/src/forecast/model.rs:189-248 | the answer is the only solution, and the matrix is positive definite |
| `Cholesky.ReflectedOfSymmetric` | crates/domain/src/forecast/model.rs:189-248 | reading only the lower triangle loses nothing for a symmetric matrix |
| `LinearAlgebra.UniqueSolution` | crates/domain/src/forecast/model.rs:189-248 | a matrix with a lower factor of positive diagonal sends different vectors to different images |
| `Ridge.FromRows` | crates/domain/src/forecast/model.rs:65-90 | the mean and the standard deviation of every column, with scale 1 for a flat column and moments 0 and 1 without rows |
| `Ridge.FromWeightedRows` | crates/domain/src/forecast/model.rs:92-115 | the same moments under weights, over the rows that have a weight and the total of all weights; 0 and 1 without rows or total weight |
| `Ridge.AddSample` | crates/domain/src/forecast/model.rs:275-291 | one sample adds weight·xᵢ·xₖ to every entry of the matrix and weight·xᵢ·target to every entry of the vector |
| `Ridge.AddPenalty` | crates/domain/src/forecast/model.rs:292-296 | adds the penalty on the diagonal except at the intercept |
| `Ridge.WeightedNormalEquations` | crates/domain/src/forecast/model.rs:264-298 | the buffers hold XᵀWX plus the penalty and XᵀWy of the paired samples; a missing weight counts 0 |
| `Ridge.CheckFittable` | crates/domain/src/forecast/model.rs:321-335 | a fit needs enough samples and one usable weight per sample |
| `Ridge.Fit` | crates/domain/src/forecast/model.rs:321-376 | the model is the fallback, or it holds the weighted moments and an exact solution of the penalized normal equations |
| `Ridge.Predict` | crates/domain/src/forecast/model.rs:149-171 | the standardized linear form of the input, through the sinh that undoes the asinh of the targets under the arcsinh transform and as it is otherwise; the constant for a fallback model |
| `NormalEquations.CostExpansion` | crates/domain/src/forecast/model.rs:264-298 | for any coefficients and any step, the cost changes by twice the step against the residual of the normal equations plus the quadratic form of the step |
| `NormalEquations.GramIsSymmetric` | crates/domain/src/forecast/model.rs:264-298 | the penalized matrix is symmetric |
| `NormalEquations.SolutionMinimises` | crates/domain/src/forecast/model.rs:264-298 | a solution of the normal equations is the only minimiser of the weighted penalized squared error; other coefficients cost exactly dᵀ·a·d more |
| `NormalEquations.NormalMatrixIsPositive` | crates/domain/src/forecast/model.rs:264-298 | with weights that are not negative, a total weight and a penalty above the tolerance always give a solvable system |
| `RidgeTheorems.FitMinimises` | crates/domain/src/forecast/model.rs:321-376 | a fit that does not fall back is the unique minimiser of its cost over all coefficient vectors, and any other vector costs exactly the quadratic form of the distance more |
| `RidgeTheorems.FallbackOnlyWhenUnfittable` | crates/domain/src/forecast/model.rs:321-376 | with a penalty and a total weight above 10^-12, the fit falls back if and only if there are fewer than 24 samples, no feature, or a number of weights that is wrong or a negative weight |
| `RidgeTheorems.PredictionIsDesign` | crates/domain/src/forecast/model.rs:149-171 | the transform of the targets, applied to a prediction, gives back the standardized row times the coefficients |
| `RidgeTheorems.CostIsPredictionError` | crates/domain/src/forecast/model.rs:264-298 | what the fit minimises is the weighted squared error of the predictions of the model, on the scale of the fit, plus the penalty times the squared size of its coefficients |
| `RidgeTheorems.FitPredictsBest` | crates/domain/src/forecast/model.rs:321-376 | any other model of the same form predicts the training targets worse, penalty included |
| `RidgeTheorems.ColumnsAreStandardized` | crates/domain/src/forecast/model.rs:92-115 | the standardized training columns have weighted mean 0, and weighted variance 1 unless they are flat |
| `RidgeTheorems.RowsAreReadAsPadded` | crates/domain/src/forecast/model.rs:117-130 | a row that is too short is the same row with zeros, in training and in prediction, and what it holds past the features is not read |
| `RidgeTheorems.SystemOfRepeated` | crates/domain/src/forecast/model.rs:92-115 | integer weights give the moments and the normal equations of the repeated rows |
| `RidgeTheorems.WeightsMeanRepetition` | crates/domain/src/forecast/model.rs:321-376 | fitting with integer weights gives the same model as fitting the repeated rows |
| `Vintages.SelectVintagesAsOf` | crates/tools/src/backtest.rs:94-116 | one pass gives one vintage per target in the order of first admission |
| `Vintages.PickIsFreshest` | crates/tools/src/backtest.rs:94-116 | the vintage of a target is the newest admitted one, the first of them on a tie, and there is one if and only if the target has an admitted vintage |
| `Vintages.SelectionIsFreshest` | crates/tools/src/backtest.rs:94-116 | the selection holds exactly one freshest vintage for every target with an admitted one |
| `Vintages.SelectionReadsAdmitted` | crates/tools/src/backtest.rs:94-116 | a bounded selection does not depend on vintages at or after the bound |
| `Ladders.NewLadder` | crates/domain/src/forecast/issuance.rs:247-263 | per target, the vintages before the limit in a stable order of issue time |
| `Ladders.LadderIsWhole` | crates/domain/src/forecast/issuance.rs:247-263 | the vintages before the limit determine the ladder |
| `Ladders.AsOf` | crates/domain/src/forecast/issuance.rs:265-295 | per target of the window in order, the newest vintage issued before the time, and the latest issue time per quarter |
| `Ladders.NewestIsPickLast` | crates/domain/src/forecast/issuance.rs:265-295 | the partition point of the sorted list finds the freshest vintage, the last of them on a tie |
| `Ladders.LadderIsFreshest` | crates/domain/src/forecast/issuance.rs:265-295 | a record is in the answer if and only if it is the freshest vintage of a target in the window |
| `Ladders.PickLastIsLastNewest` | crates/domain/src/forecast/issuance.rs:265-295 | the vintage of a target in the ladder is the last of the newest ones issued before the time |
| `Ladders.LadderAgreesExactly` | crates/domain/src/forecast/issuance.rs:265-295 | for fixed targets and issue times, the ladder and the linear selection give the same record of a target at all values if and only if its newest issue time before the bound occurs once |
| `Ladders.LadderAgreesWithSelection` | crates/domain/src/forecast/issuance.rs:265-295 | when the newest issue time of a target occurs once, the two give the same record of it, whatever the older ones do |
| `Ladders.TiesDisagree` | crates/domain/src/forecast/issuance.rs:265-295 | when the newest issue time occurs more than once, the linear selection takes an earlier entry of the input with it and the ladder a later one |
| `Ladders.TwoOnATie` | crates/domain/src/forecast/issuance.rs:265-295 | of two vintages of one target and one issue time, the ladder takes the second and the linear selection the first |
| `Ladders.ReportedIssuesAreInTime` | crates/domain/src/forecast/issuance.rs:265-295 | every issue time that a quarter reports lies before the issue time asked for |
| `LadderBlindness.NewestIsBlind` | crates/domain/src/forecast/issuance.rs:265-295 | two ladders with the same vintages before a time have the same newest vintage of every target |
| `LadderBlindness.RecordsAreBlind` | crates/domain/src/forecast/issuance.rs:265-295 | ladders with the same newest vintages give the same records, although their targets can differ |
| `LadderBlindness.QuarterHasLatest` | crates/domain/src/forecast/issuance.rs:287-292 | the issue time of a quarter is the latest one that a target in it reports, and it is present if and only if one reports |
| `LadderBlindness.QuartersAreBlind` | crates/domain/src/forecast/issuance.rs:287-292 | ladders with the same newest vintages report the same issue time for every quarter |
| `Publication.HorizonEndsLastPublishedDay` | crates/domain/src/forecast/issuance.rs:34-53 | the horizon is the end of the last delivery day D whose publication, 12:00 UTC on D − 1, is not after the issue time |
| `Publication.HorizonMonotone` | crates/domain/src/forecast/issuance.rs:41-53 | a later issue time never sees fewer published days |
| `Publication.HorizonAfterIssue` | crates/domain/src/forecast/issuance.rs:41-53 | the published days reach past the issue time |
| `Backtest.FindLastPublished` | crates/tools/src/backtest.rs:191-197 | the last FI delivery start before the horizon |
| `Backtest.CollectPrices` | crates/tools/src/backtest.rs:202-224 | one pass fills the served and the older window, a later point replacing an earlier one of its quarter |
| `Backtest.PricesAreLastPoints` | crates/tools/src/backtest.rs:202-224 | a quarter of a series holds the last price point of its area in the window, and there is one if and only if a point has the quarter |
| `Backtest.SelectForecasts` | crates/tools/src/backtest.rs:226-239 | the freshest admitted vintage of every target of the window, per dataset |
| `Backtest.ReconstructIssueTime` | crates/tools/src/backtest.rs:185-285 | the whole reconstruction: last published price, origin, prices, vintages, ladders and actuals of both windows |
| `Backtest.KnownAlikeGivesSameInputs` | crates/tools/src/backtest.rs:185-285 | datasets that agree on what is known by the issue time give the same inputs, when neither holds an unpublished price before the origin |
| `Backtest.NonInterference` | crates/tools/src/backtest.rs:185-285 | with quarter-aligned prices, data from after an issue time never changes its inputs |
| `Backtest.NonInterferenceExactly` | crates/tools/src/backtest.rs:185-285 | without the alignment, the inputs are the same for every dataset with the same known part if and only if the origin is not past the horizon |
| `Backtest.Interfering` | crates/tools/src/backtest.rs:185-285 | past the horizon, one unpublished price already changes the inputs |
| `Backtest.PriceOffTheGridInterferes` | crates/tools/src/backtest.rs:185-285 | such data exist at every issue time: a single FI price one millisecond before the horizon makes the inputs depend on an unpublished price |
| `Backtest.LeaksAreLateVintages` | crates/tools/src/backtest.rs:300-372 | the leakage guard reports nothing if and only if no vintage of the window issued at or after the time was admitted |
| `Backtest.IssueTimeNeverLeaks` | crates/tools/src/backtest.rs:300-372 | an issue-time reconstruction never fails the leakage guard |
| `BacktestReads.OriginFollowsPrices` | crates/tools/src/backtest.rs:191-198 | the origin is a quarter past the last FI price before the horizon, and the issue time without one |
| `BacktestReads.PricesOfBothWindows` | crates/tools/src/backtest.rs:202-224 | a quarter has a served price if and only if the area has a price in it within 30 days before the origin, and an older one within the 34 days before that |
| `BacktestReads.ActualsOfBothWindows` | crates/tools/src/backtest.rs:257-271 | the actuals are exactly those of the two windows that start before the issue time |
| `BacktestReads.TargetsOfTheWindow` | crates/tools/src/backtest.rs:230-256 | the ladder holds every admitted vintage with a target from 30 days before the origin to 3 days after it, and the forecast the freshest one of each such target |
| `BacktestReads.GuardReportsExactly` | crates/tools/src/backtest.rs:300-372 | for any inputs, the guard reports a time if and only if it is a price at or after the origin, or an actual or an issue time at or after the issue time asked for |
| `BacktestReads.TargetsLookForward` | crates/tools/src/backtest.rs:336-343 | the times that may look forward are exactly the targets of the forecast |
| `Features.BuildPriceIndex` | crates/domain/src/forecast/features.rs:203-256 | the index of the prices: statistics per day and the mean of all prices |
| `Features.AggregateBounds` | crates/domain/src/forecast/features.rs:212-235 | a day has an aggregate if and only if it has a price; its bounds are prices of the day and bound all of them |
| `Features.IndexIsDayStats` | crates/domain/src/forecast/features.rs:203-256 | the statistics of a day are those of exactly its prices |
| `Features.LastBefore` | crates/domain/src/forecast/features.rs:272-275 | the last price key before a bound, and one if there is any |
| `Features.MeanIsBetween` | crates/domain/src/forecast/features.rs:241-245 | the mean of a day lies between its bounds |
| `Features.ColumnsOfRow` | crates/domain/src/forecast/features.rs:263-320 | the grid columns hold the two values or 0, their difference and their product; the FI and neighbour columns hold the prices exactly a day and a week before, or the neutral fill |
| `FeatureColumns.LatestColumn` | crates/domain/src/forecast/features.rs:272-276 | the latest price is that of the last quarter before the target, or at it under the other rule, and the neutral fill without one |
| `FeatureColumns.PreviousDayColumns` | crates/domain/src/forecast/features.rs:279-289 | the previous day gives its lowest, its highest and its mean price in this order: the first two are prices of the day that bound all of them, and the mean times their number is their sum |
| `FeatureColumns.NeutralIsMean` | crates/domain/src/forecast/features.rs:247-255 | the neutral fill times the number of prices is their sum, and 0 without prices |
| `FeatureColumns.CalendarColumns` | crates/domain/src/forecast/features.rs:291-298 | on every UTC date, the angles of the hour in 24 and of the weekday in 7, and 1 exactly on Saturdays and Sundays, counted from a known Saturday |
| `Issuance.Reconstruct` | crates/domain/src/forecast/issuance.rs:463-501 | the inputs of one issuance: prices before its series start, vintages issued before it, actuals started before it, in its own window |
| `Issuance.IssuanceExamples` | crates/domain/src/forecast/issuance.rs:533-597 | the cursor loop gives the examples and the counters of every target quarter of the window |
| `Issuance.BuildIssuanceExamples` | crates/domain/src/forecast/issuance.rs:599-658 | the scan over the earlier issuances, with its skipped and its last issuance |
| `IssuanceTheorems.ExampleIsOutcome` | crates/domain/src/forecast/issuance.rs:533-597 | an example is in the list if and only if its target has a price and both grid values |
| `IssuanceTheorems.TargetsAscend` | crates/domain/src/forecast/issuance.rs:533-597 | the targets of an issuance ascend, so none has two examples |
| `IssuanceTheorems.TallyIsComplete` | crates/domain/src/forecast/issuance.rs:533-597 | every target quarter is counted exactly once, as an example or for one reason |
| `IssuanceTheorems.TallyCountsOutcomes` | crates/domain/src/forecast/issuance.rs:556-596 | each counter is the number of targets with its own outcome |
| `IssuanceTheorems.TargetsOfIssuance` | crates/domain/src/forecast/issuance.rs:599-658 | an issuance gives an example of a quarter if and only if it has a grid record and a price, the quarter lies in its 3 days and in the 30 days before the run, and has a price and both grid values |
| `IssuanceTheorems.SummaryTells` | crates/domain/src/forecast/issuance.rs:516-530 | the first price is the earliest one, and the numbers of prices and of named quarters are those of the inputs |
| `IssuanceTheorems.PublishedEndIsEarlier` | crates/domain/src/forecast/issuance.rs:431-446 | the published quarters end at the horizon, floored to a quarter, or at the start of the run where that is earlier |
| `IssuanceTheorems.InputsAreKnown` | crates/domain/src/forecast/issuance.rs:463-501 | the prices and the actuals are exactly those of the window that lie before the series start and the issue time, and every issue time lies before the issue time |
| `IssuanceTheorems.MissingLagsAreMarked` | crates/domain/src/forecast/issuance.rs:373-401 | a price lag that the issuance did not have is marked and takes the neutral fill; one that is not marked is the price itself |
| `IssuanceTheorems.LateLagsAreMissing` | crates/domain/src/forecast/issuance.rs:1-12 | the day lag of a target past the known days is always marked as missing |
| `IssuanceTheorems.ExamplesForecast` | crates/domain/src/forecast/issuance.rs:533-597 | the target is not before the series start, lies in both windows, has both grid values, and is labelled with its price |
| `IssuanceTheorems.EveryExampleForecasts` | crates/domain/src/forecast/issuance.rs:599-658 | every example of a run is a forecast of an issuance whole days before it |
| `IssuanceTheorems.SeriesStartIsPastPublished` | crates/domain/src/forecast/issuance.rs:426-446 | the series start lies past every published price of the input, and one quarter after such a price or at the end of what is published |
| `IssuanceTheorems.InputsAreBlind` | crates/domain/src/forecast/issuance.rs:463-501 | runs that agree on what an issuance knew give it the same series start and the same inputs |
| `IssuanceTheorems.RowsAreBlind` | crates/domain/src/forecast/issuance.rs:349-406 | then every row of the issuance is the same, for any target |
| `IssuanceTheorems.ExamplesAreBlind` | crates/domain/src/forecast/issuance.rs:533-597 | an example keeps its row, its sources and its lags, and changes at most its label |
| `IssuanceTheorems.TrainingIsBlind` | crates/domain/src/forecast/issuance.rs:599-658 | changing anything that an issuance did not know leaves each of its examples in the training set with the same row, as long as the target has a price |
| `IssuanceTheorems.SeriesStartsAscend` | crates/domain/src/forecast/issuance.rs:431-446 | a later issuance never starts its series earlier |
| `IssuanceTheorems.ScanStopsInTime` | crates/domain/src/forecast/issuance.rs:634-636 | where the scan stops, no older issuance would give an example |
| `IssuanceTheorems.ScanKeepsExamples` | crates/domain/src/forecast/issuance.rs:625-656 | the scan loses no example of an issuance in its range |
| `IssuanceTheorems.OldIssuancesGiveNothing` | crates/domain/src/forecast/issuance.rs:423-425 | an issuance older than the scan looks has no target in the training window, when the run starts at most a day before its issue time |
| `IssuanceTheorems.TrainingIsComplete` | crates/domain/src/forecast/issuance.rs:599-658 | then the training set is exactly the examples of all earlier issuances, however old |
| `Grid.BucketRecords` | crates/domain/src/forecast/series.rs:28-46 | the mean of the samples of every quarter that has one |
| `Grid.QuartersHaveSamples` | crates/domain/src/forecast/series.rs:28-46 | a quarter has a sample count above 0 if and only if a record starts in it |
| `Grid.ExpandHourlyToQuarters` | crates/domain/src/forecast/series.rs:48-66 | a quarter past the hour without an own value takes the value of the hour, and nothing else changes |
| `Grid.BuildSeries` | crates/domain/src/forecast/pipeline.rs:217-264 | the merged, the forecast and the extended series of one dataset under either gap rule |
| `Grid.BuildGridSeries` | crates/domain/src/forecast/pipeline.rs:207-277 | the series of both datasets from their records |
| `Grid.ValuesExactly` | crates/domain/src/forecast/pipeline.rs:217-264 | which quarters of a dataset have a value: those of the forecast and the actuals, those past the forecast with an actual in a week of the extension, and, when gaps are filled, those with an actual in a week of the lookback |
| `Grid.MissingExactly` | crates/domain/src/forecast/pipeline.rs:242-264 | when gaps are filled, a quarter lacks a value if and only if forecast and actuals lack it and no week of the lookback has an actual |
| `Grid.ValueComesFrom` | crates/domain/src/forecast/pipeline.rs:236-264 | the forecast is never overridden, the extension goes before an actual, and the rest is an actual or the mean of the nearest weeks |
| `IssuanceSources.RecordsOfKnown` | crates/domain/src/forecast/issuance.rs:265-295 | an issuance has a forecast record of a quarter if and only if a vintage issued before it has a target in the quarter |
| `IssuanceSources.IssueOfKnown` | crates/domain/src/forecast/issuance.rs:287-292 | the issue time of a quarter is the newest one of all vintages known for it |
| `IssuanceSources.MarksNameVintages` | crates/domain/src/forecast/issuance.rs:349-406 | a row is marked as built from a vintage if and only if the issuance knew one for the quarter; it names the newest issue time of those, and its lead columns hold the hours from the issue time |
| `IssuanceSources.HoursCountMinutes` | crates/domain/src/forecast/issuance.rs:327-333 | the lead in hours times 60 is the number of whole minutes, cut off at the bounds of 32 bits |
| `IssuanceSources.LagsAreMarked` | crates/domain/src/forecast/issuance.rs:369-404 | the last marks are 1 exactly without a price on the previous day, and the thirds of the neighbour areas that lack a price a day and a week before |
| `IssuanceSources.ColumnsReadSources` | crates/domain/src/forecast/issuance.rs:349-406 | each grid column holds what its source names: the mean of the vintage records, the mean of earlier weeks, the actual, or 0 |
| `IssuanceSources.TargetsAreExamplesExactly` | crates/domain/src/forecast/issuance.rs:533-597 | a target with a price is left out if and only if, for wind or for consumption, no known vintage, no actual and no week of the lookback gives it a value |
| `Radix.BitsOf` | crates/domain/src/js.rs:139-148 | the bit string of the digits denotes their exact integer; nothing for a character that is not a digit |
| `Radix.RoundBits` | crates/domain/src/js.rs:156-173 | the kept bits, the round bit and the sticky bits give the 53-bit value rounded half to even, with a mantissa below 2^53 also after the carry |
| `Radix.RadixToNumber` | crates/domain/src/js.rs:138-189 | the double of the exact integer of hex, octal or binary digits of any length; NaN if and only if the text is empty or holds another character |
| `Radix.RemainderBits` | crates/domain/src/js.rs:164-166 | the round and the sticky bits decide the remainder against one half |
| `Radix.RoundingIsHalfEven` | crates/domain/src/js.rs:164-173 | no value with 53 significant bits is nearer, and a tie goes to the even mantissa |
| `Radix.NormalIsUnique` | crates/domain/src/js.rs:156-180 | a value has one normal mantissa and exponent |
| `Radix.RoundingIsMonotone` | crates/domain/src/js.rs:156-180 | rounding half to even gives one value, and a larger integer never a smaller one |
| `Radix.DoublesAreMonotone` | crates/domain/src/js.rs:138-189 | a larger integer never gives a smaller double, with infinity above every finite value, and one integer gives one value |
| `Radix.OverflowExactly` | crates/domain/src/js.rs:136-190 | a literal is infinite if and only if its integer is at least 2^1024 - 2^970 |
| `NumberText.StringToNumber` | crates/domain/src/js.rs:76-105 | the trimmed text as empty, infinite, radix, or decimal number, or NaN |
| `NumberText.AssembledIsLiteral` | crates/domain/src/js.rs:108-128 | sign, digits, fraction and exponent put together are a literal that denotes exactly their value |
| `NumberText.PartsDenote` | crates/domain/src/js.rs:225-247 | each of the four layouts denotes digits·10^exponent |
| `NumberText.PrintedText` | crates/domain/src/js.rs:225-247 | the printed text is the text of its parts |
| `NumberText.PrintedReadsBack` | crates/domain/src/js.rs:193-248 | every printed finite number is a decimal literal that no radix prefix takes, and it reads back as exactly the value printed |
| `NumberText.SpecialsReadBack` | crates/domain/src/js.rs:194-202 | NaN, zero and both infinities read back as themselves |
| `NumberText.DigitsByPlace` | crates/domain/src/js.rs:136-160 | a digit stands for its place in 0-9 and a-f, in either case |
| `NumberText.RadixTextDenotes` | crates/domain/src/js.rs:76-104 | "0b", "0o" and "0x" texts denote the integer of their digits in base 2, 8 and 16; without digits or with any other character they are NaN |
| `NumberGrammar.LiteralsAreGrammar` | crates/domain/src/js.rs:107-128 | the parser accepts a text if and only if it is put together from a sign, digits with a point, and an exponent, as the grammar says |
| `NumberGrammar.GrammarIsAccepted` | crates/domain/src/js.rs:107-128 | every text of the grammar is accepted, and its value is that of its parts |
| `NumberGrammar.AcceptedIsGrammar` | crates/domain/src/js.rs:107-128 | every accepted text has such parts, and its value is theirs |
| `NumberGrammar.TrimTakesBlanks` | crates/domain/src/js.rs:70-73 | trimming takes blanks off both ends, all of them and nothing else |
| `NumberGrammar.BlanksAreListed` | crates/domain/src/js.rs:46-67 | the blanks are the listed characters |
| `NumberForm.ExponentIsForExtremes` | crates/domain/src/js.rs:230-248 | a number is printed with an exponent if and only if its size is below 10^-6 or at least 10^21 |
| `NumberForm.LayoutForm` | crates/domain/src/js.rs:230-248 | the digits are printed once and in order, with the point after as many of them as the exponent says, zeros only where it asks for them, and one digit before the point under an exponent |
| `NumberForm.MagnitudeOf` | crates/domain/src/js.rs:211-228 | digits without a leading zero and an exponent denote a number between that power of ten and the next |
| `NumberForm.NoLeadingZero` | crates/domain/src/js.rs:240-248 | the size of an exponent is printed without a leading zero |
| `Calendar.MonthStep` | crates/domain/src/js.rs:315-323 | consecutive months differ by the true length of the first, in every year |
| `Calendar.ClosedFormIsCalendar` | crates/domain/src/js.rs:315-323 | the closed form equals the calendar that adds up month lengths from January 1970, for all years |
| `Calendar.NumberOrdersDates` | crates/domain/src/js.rs:315-323 | day numbers order valid dates like year, month and day, and are different for different dates |
| `Calendar.DaysRollIntoMonths` | crates/domain/src/js.rs:280-312 | a day past the end of a month rolls into the next month |
| `Calendar.MonthsRollIntoYears` | crates/domain/src/js.rs:280-312 | twelve months are one year if and only if the year is not at an edge of the years that map to the 1900s |
| `Calendar.DateUtcOfDate` | crates/domain/src/js.rs:280-312 | a valid date outside the years 0 to 99 has its own instant, and none if and only if it lies more than 100 million days from 1970; a date of the years 0 to 99 has the instant of the same month and day of the 1900s |
| `Calendar.DateUtcIsRolledDay` | crates/domain/src/js.rs:276-312 | every time is the midnight of the day that rolling days and months gives |
| `Calendar.DateUtcCountsOn` | crates/domain/src/js.rs:276-312 | for any whole year, month and day, the days count on from the first of the month that lies so many months after January, and there is no time past the bounds |
| `Calendar.EasterFromOffset` | crates/domain/src/forecast/holiday.rs:15-32 | Easter is a valid date from 22 March to 25 April |
| `Calendar.EasterIsASunday` | crates/domain/src/forecast/holiday.rs:15-32 | for every year from 0 the weekday of that date is Sunday |
| `Calendar.EasterFollowsFullMoon` | crates/domain/src/forecast/holiday.rs:15-32 | Easter is the first Sunday strictly after the full moon that the algorithm computes, with its two exceptions |
| `Computus.MoonIsEcclesiastical` | crates/domain/src/forecast/holiday.rs:15-32 | the full moon that the algorithm computes is the ecclesiastical one in every year: 11 days back a year and one more where the 19-year cycle restarts, a solar correction in each century year not divisible by 400, and 8 lunar corrections in 2500 years |
| `Computus.EasterIsFirstSunday` | crates/domain/src/forecast/holiday.rs:15-32 | Easter is the first Sunday strictly after that moon, which comes a day earlier for the two exceptional epacts |
| `Computus.EasterOf2024` | crates/domain/src/forecast/holiday.rs:15-32 | the full moon of 25 March 2024 and Easter on 31 March 2024 |
| `HistoryQuery.ParseIsoDate` | crates/domain/src/query.rs:298-306 | only a valid Gregorian date in ten characters is a date |
| `HistoryQuery.DayOfText` | crates/domain/src/query.rs:460-469 | for a date text, the numbers at the year, month and day positions give the instant of the date |
| `HistoryQuery.SliceTakes` | crates/domain/src/js.rs:258-275 | a slice holds the code units between its bounds, as far as the text has them |
| `HistoryQuery.TruncDropsFraction` | crates/domain/src/js.rs:276-296 | truncation goes toward 0 on both sides of it |
| `HistoryQuery.RadixIntegerIsItself` | crates/domain/src/js.rs:76-104 | a binary, octal or hexadecimal integer below 2^53 is that number |
| `HistoryQuery.ParseHistoryQuery` | crates/domain/src/query.rs:413-455 | a query is accepted if and only if both texts are dates in order and within the span; otherwise the issues are those of the two dates, and for two texts, dates or not, the order issue and the span issue of the times that they give |
| `HistoryQuery.TextOrderIsDateOrder` | crates/domain/src/js.rs:254-258 | the code-unit order of two date texts is the order of the dates |
| `HistoryQuery.LimitFailsExactly` | crates/domain/src/query.rs:413-469 | for every pair of dates: 1 to 31 inclusive days are accepted, a range backwards is not, and a longer one is accepted if and only if it starts in the years 0 to 99 and ends, from the year 100 on, up to 30 days after the start of the 1900s that it counts as, or starts from 30 January to 29 February of the year 0 and holds 32 days |
| `HistoryQuery.SafeYears` | crates/domain/src/query.rs:413-469 | no accepted range from year a to year b exceeds the limit if and only if a ≥ 100, or 0 < b ≤ 99, or b > a + 1901 |
| `HistoryQuery.IsoTextParses` | crates/domain/src/query.rs:298-306 | every date of the years 0 to 9999 has a text that reads back as the date |
| `HistoryQuery.AcceptedIsShortRange` | crates/domain/src/query.rs:413-469 | with years from 100, accepted means a forward range of at most 31 inclusive calendar days, and conversely |
| `HistoryQuery.AcceptedInFirstCentury` | crates/domain/src/query.rs:460-469 | the same holds when both years are from 1 to 99 |
| `HistoryQuery.CrossingIsAccepted` | crates/domain/src/query.rs:460-469 | a range from a year up to 99 to a year from 100 to 1899 is accepted whatever its length |
| `HistoryQuery.LongRangeIsAccepted` | crates/domain/src/query.rs:460-469 | one such range holds 11323 days |
| `HistoryQuery.YearZeroRangeIsAccepted` | crates/domain/src/query.rs:460-469 | 0000-02-01 to 0000-03-03 is accepted with 32 days |
| `RateLimit.Limiter.constructor` | crates/server/src/http/rate_limit.rs:57-64 | a new limiter has no window |
| `RateLimit.Limiter.Check` | crates/server/src/http/rate_limit.rs:67-99 | one request changes the windows as one step of the limiter and returns its decision, whose numbers are those of the RateAnswers rows |
| `RateLimit.CeilSecondsIsLeast` | crates/server/src/http/rate_limit.rs:129-131 | the fewest whole seconds that last the milliseconds, also for a negative number |
| `RateLimit.StepKeepsBound` | crates/server/src/http/rate_limit.rs:67-91 | a request never leaves more than `MAX_KEYS` windows |
| `RateLimit.RunStaysBounded` | crates/server/src/http/rate_limit.rs:22-24 | the windows stay within `MAX_KEYS` over every run |
| `RateLimit.StepKeepsWindows` | crates/server/src/http/rate_limit.rs:67-91 | a request changes no window but the one of its key |
| `RateLimit.StepRefines` | crates/server/src/http/rate_limit.rs:67-91 | while there is room, a request decides like the limiter that never drops a window, and keeps the same live windows |
| `RateLimit.DecisionsRefine` | crates/server/src/http/rate_limit.rs:67-99 | with room at every new key, every decision of a run is the one of the unbounded limiter |
| `RateLimit.StepSpendsBudget` | crates/server/src/http/rate_limit.rs:67-99 | an allowed request spends one of the budget of its key, and only dropping a live window refills it |
| `RateLimit.AllowedIsBounded` | crates/server/src/http/rate_limit.rs:67-99 | in any interval of one window length a key is allowed at most 2·limit − 1 requests, and limit more for each time its live window is dropped in it |
| `RateLimit.WindowCountsRequests` | crates/server/src/http/rate_limit.rs:80-91 | a window counts no more requests than its key made since the window began |
| `RateLimit.DeniedOnlyOverLimit` | crates/server/src/http/rate_limit.rs:67-99 | a denied request comes after at least limit requests of its key within one window length |
| `RateLimit.AllowedWithRoom` | crates/server/src/http/rate_limit.rs:67-99 | with room at every new key, fewer than 2·limit requests in any interval of one window length |
| `RateLimit.UnboundedCases` | crates/server/src/http/rate_limit.rs:67-99 | the two cases outside the bound, the largest limit and the last millisecond, allow every request |
| `RateAnswers.RemainingIsExact` | crates/server/src/http/rate_limit.rs:67-99 | after an allowed request, the key has exactly the remaining requests left in the window: one more is allowed if and only if fewer were made, as long as the window is not dropped; after a denied one it has none |
| `RateAnswers.ResetIsLeast` | crates/server/src/http/rate_limit.rs:94-98 | the reset is the least number of whole seconds after which the window has ended |
| `RateAnswers.WaitingResets` | crates/server/src/http/rate_limit.rs:67-99 | the next request of the key after that many seconds starts a fresh window, and is allowed if and only if the limit is positive |
| `RateAnswers.EarlierDoesNot` | crates/server/src/http/rate_limit.rs:67-99 | with a second less the request still counts in the old window |
| `RateAnswers.PolicyIsReported` | crates/server/src/http/rate_limit.rs:92-98 | every answer carries the limit and the window in whole seconds, rounded up |
| `RateAnswers.LimitZeroDenies` | crates/server/src/http/rate_limit.rs:67-99 | a limit of 0 denies every request |
| `Conformal.NearestRank` | crates/domain/src/forecast/conformal.rs:141-153 | the rank lies between 1 and the number of values |
| `Conformal.RanksSpan` | crates/domain/src/forecast/conformal.rs:141-156 | the two nearest ranks span at least the nominal fraction |
| `Conformal.OffsetsCover` | crates/domain/src/forecast/conformal.rs:163-182 | the offsets of a bucket span 0 and cover at least the nominal fraction of the bucket |
| `Conformal.DeriveBandOffsets` | crates/domain/src/forecast/conformal.rs:188-214 | own offsets for every hour with enough finite residuals, pooled offsets from all of them |
| `Conformal.CoveredByResidual` | crates/domain/src/forecast/conformal.rs:216-276 | for finite prices the band test is the test of the arcsinh residual against the offsets |
| `Conformal.ObservedCoverageOf` | crates/domain/src/forecast/conformal.rs:249-276 | the covered fraction of the scored residuals, 0 without one |
| `Conformal.HourIsCovered` | crates/domain/src/forecast/conformal.rs:203-209 | own offsets cover at least the nominal fraction of the finite residuals of their hour |
| `Conformal.CoverageBound` | crates/domain/src/forecast/conformal.rs:249-276 | at least the nominal fraction of the residuals in hours with own offsets is covered, and the pooled offsets guarantee what they can miss there at most |
| `Conformal.CoverageReachesNominal` | crates/domain/src/forecast/conformal.rs:249-276 | with finite prices, the observed coverage reaches the nominal one when every hour with residuals has own offsets, or none has |
| `Conformal.GatePasses` | crates/domain/src/forecast/conformal.rs:296-321 | with finite prices, the coverage gate passes when at most half or at least seven in eight of the residuals lie in hours with own offsets |
| `Conformal.OwnNeedsPooled` | crates/domain/src/forecast/conformal.rs:301-303 | own offsets exist only where pooled ones do |
| `Conformal.BuildArtifact` | crates/domain/src/forecast/conformal.rs:296-321 | dark with too few samples, dark with the measured coverage below the gate, calibrated with the derived offsets otherwise |
| `Conformal.BandContainsRoundedPoint` | crates/domain/src/forecast/conformal.rs:232-244 | the band always contains the point rounded to 0.001 |
| `Conformal.BandContainsPoint` | crates/domain/src/forecast/conformal.rs:133-138 | every band contains the point itself if and only if the point is on the grid of 0.001 |
| `Conformal.BandExists` | crates/domain/src/forecast/conformal.rs:216-236 | there is a band if and only if the bands are calibrated and the hour has own offsets or there are pooled ones |
| `Conformal.BandKeepsCoverage` | crates/domain/src/forecast/conformal.rs:232-244 | for finite prices, the served band holds every price that the coverage counts, rounded like the band |
| `Conformal.BandIsTight` | crates/domain/src/forecast/conformal.rs:232-244 | a price inside the band by more than the rounding has a residual within the offsets widened to 0, so the band is no wider than needed |
| `Conformal.ServedCoverage` | crates/domain/src/forecast/conformal.rs:246-276 | over finite prices, the served bands hold at least as many rounded prices as the measured coverage counts |
| `Conformal.NearestRankIsLeast` | crates/domain/src/forecast/conformal.rs:141-156 | the rank is the least one that reaches the fraction |
| `Conformal.OffsetsArePercentiles` | crates/domain/src/forecast/conformal.rs:163-183 | the offsets are the nearest-rank percentiles that leave out the same fraction on both sides, taken together with 0 |
| `Conformal.UnboundedPriceIsNotCovered` | crates/domain/src/forecast/conformal.rs:249-276 | a price that is not finite is scored and never covered by the band of a finite point |
| `Rounding.RoundIsNearest` | crates/domain/src/js.rs:15-28 | rounds to the nearest integer, a tie upwards |
| `Rounding.Round3Monotone` | crates/domain/src/js.rs:31-33 | rounding to three decimals keeps order |
| `Rounding.Round3IsNear` | crates/domain/src/js.rs:30-33 | rounding moves a price by at most half of 0.001 |
| `Rounding.Round3OnGrid` | crates/domain/src/js.rs:31-33 | rounding changes a number if and only if it has more than three decimals |
| `Sorting.SortAscending` | crates/domain/src/forecast/conformal.rs:167-169 | the sort ascends |
| `Sorting.SortPermutes` | crates/domain/src/forecast/conformal.rs:167-169 | the sort permutes its input |
| `Sorting.SortIsStable` | crates/domain/src/forecast/conformal.rs:167-169 | equal keys keep their order |
| `Ranks.OrderPermutes` | crates/tools/src/metrics.rs:76-77 | the sorted index list is a permutation and ascends by value |
| `Ranks.GroupRank` | crates/tools/src/metrics.rs:80-91 | the average rank of a group of positions is the count of smaller values plus half of one more than the count of equal ones |
| `Ranks.AverageRanks` | crates/tools/src/metrics.rs:74-93 | the nested loops give every value that rank |
| `Ranks.RanksSum` | crates/tools/src/metrics.rs:74-93 | the ranks of n values sum to n(n + 1)/2 with any ties |
| `Ranks.RankOrder` | crates/tools/src/metrics.rs:74-93 | a larger value has a larger rank |
| `Ranks.RanksOfIncreasing` | crates/tools/src/metrics.rs:74-93 | ranks are the same after any strictly increasing map |
| `Ranks.RanksOfDecreasing` | crates/tools/src/metrics.rs:74-93 | a strictly decreasing map mirrors the ranks |
| `Ranks.Spearman` | crates/tools/src/metrics.rs:100-122 | the covariance of the ranks over the root of the product of their variances, with the two error cases |
| `Ranks.CauchySchwarz` | crates/tools/src/metrics.rs:110-121 | the squared covariance is at most the product of the variances |
| `Ranks.SpearmanIsBounded` | crates/tools/src/metrics.rs:100-122 | a correlation lies between −1 and 1 |
| `Ranks.SpearmanIsNone` | crates/tools/src/metrics.rs:95-122 | there is none if and only if there are fewer than two values or a series is constant |
| `Ranks.SpearmanOfIncreasing` | crates/tools/src/metrics.rs:100-122 | strictly increasing maps of both series keep the correlation |
| `Ranks.SpearmanOfDecreasing` | crates/tools/src/metrics.rs:100-122 | a strictly decreasing map of one series negates it |
| `Ranks.SpearmanOfSelf` | crates/tools/src/metrics.rs:100-122 | a series that is not constant correlates fully with itself |
| `Ranks.SpearmanCommutes` | crates/tools/src/metrics.rs:100-122 | the two series can be exchanged |
| `CheapestWindow.BuildPriceWindow` | crates/domain/src/price.rs:237-273 | the bounds of the prices are attained, and the rounded average lies between the rounded bounds |
| `CheapestWindow.AverageBetween` | crates/domain/src/price.rs:246-262 | the time-weighted average lies between the lowest and the highest price |
| `CheapestWindow.WindowFrom` | crates/domain/src/price.rs:291-310 | the shortest gap-free run of a start that lasts the duration, if there is one |
| `CheapestWindow.FindCheapestWindow` | crates/domain/src/price.rs:278-314 | the lowest average among the shortest long-enough gap-free runs, the earliest start on a tie, with the bounds, the instants and the rounded average of exactly that run; none if and only if no gap-free run lasts the duration |
| `CheapestWindow.RunHoldsWindow` | crates/domain/src/price.rs:291-310 | a gap-free run that lasts the duration holds the window of its start |
| `CheapestWindow.WindowIsUnique` | crates/domain/src/price.rs:291-310 | a start has at most one window |
| `CheapestWindow.WholeWindowsAreNotCheaper` | crates/domain/src/price.rs:275-314 | no run made of whole windows is cheaper than the cheapest window |
| `CheapestWindow.CheapestOfAllRuns` | crates/domain/src/price.rs:275-314 | the cheapest window is the cheapest of all gap-free runs that last the duration if and only if no window with a shorter tail behind it is cheaper |
| `CheapestWindow.WholeWindowsDecide` | crates/domain/src/price.rs:275-314 | for given intervals, the cheapest window is the cheapest run at all prices if and only if every gap-free run that lasts the duration is made of whole windows |
| `CheapestWindow.CutRunCanBeCheaper` | crates/domain/src/price.rs:275-314 | whenever a run is not made of whole windows, some prices make it cheaper than the cheapest window |
| `CheapestWindow.LongerRunCanBeCheaper` | crates/domain/src/price.rs:275-277 | three quarters at 1, 3 and 1 average less than both half hours |
| `Schedule.WindowIsTheTask` | crates/tools/src/schedule.rs:47-67 | the window holds exactly the quarters between the bounds, and a start is feasible if and only if its run lies in the window |
| `Schedule.Collect` | crates/tools/src/schedule.rs:80-83 | the price of every quarter, or the first quarter without one |
| `Schedule.CheapestStart` | crates/tools/src/schedule.rs:69-94 | the feasible start with the lowest total, the earliest on a tie; an error exactly for an infeasible window or an unknown price in it |
| `Schedule.RunMeanPrice` | crates/tools/src/schedule.rs:96-112 | the mean price of the run, none for an empty one, or the first quarter of it without a price |
| `Schedule.SameChoice` | crates/tools/src/schedule.rs:69-94 | on the gap-free grid, the cheapest window of 15 minutes per quarter is the cheapest run of the task, and conversely |
| `Schedule.Choose` | crates/tools/src/evaluation.rs:581-602 | an arm chooses the cheapest run by the published prices and its own estimate, or is excluded for the first missing quarter |
| `Schedule.ScheduleArms` | crates/tools/src/evaluation.rs:565-627 | the realised mean cost of the run of every arm, or the first exclusion in the order of the checks |
| `Schedule.ArmsAreFeasible` | crates/tools/src/evaluation.rs:603-619 | every arm runs inside the window of the task |
| `Schedule.RegretIsNotNegative` | crates/tools/src/evaluation.rs:813-835 | no arm costs less than hindsight, so no recorded regret is negative |
| `Schedule.ForesightHasNoRegret` | crates/tools/src/evaluation.rs:589-619 | an arm that prices the window as it turns out chooses the hindsight run |
| `ScheduleCosts.ArmCostIsMeanCost` | crates/tools/src/evaluation.rs:605-626 | the cost of an arm times the number of its quarters is the sum of the contract cost of the realised prices of its run |
| `ScheduleCosts.ArmsMinimiseCost` | crates/tools/src/evaluation.rs:589-621 | every arm starts where the contract cost at its expected prices is lowest, at the earliest such start; it expects published prices before the origin, and its own estimate from then on |
| `ScheduleCosts.HindsightMinimisesCost` | crates/tools/src/evaluation.rs:615-626 | the last arm does so at the realised prices, and the one before it starts at the start of the window |
| `ScheduleCosts.WindowExists` | crates/tools/src/schedule.rs:40-69 | a task has a window if and only if it asks for a run, starts and ends on the grid, and its run fits from its first quarter on |
| `ScheduleCosts.ExclusionNamesTheFirst` | crates/tools/src/evaluation.rs:570-614 | with all realised and published prices, a task is scored if and only if every arm has a price for every quarter past the origin; otherwise the exclusion names the first arm that lacks one |
| `ScheduleCosts.MissingRealisedExactly` | crates/tools/src/evaluation.rs:577-601 | a task is left out for the shared prices if and only if a quarter has no realised price, or none published before the origin |
| `Shape.ApplyWithinDayShape` | crates/domain/src/forecast/series.rs:425-470 | every prediction becomes the mean of its UTC day plus the deviation of the profile from its mean of the day; the quarters without a profile price are counted |
| `Shape.ShapeKeepsDaySums` | crates/domain/src/forecast/series.rs:422-470 | the sum of every UTC day stays, for any profile with any missing quarters |
| `Shape.ShapeFollowsProfile` | crates/domain/src/forecast/series.rs:452-464 | differences within a day are the differences of the profile |
| `Shape.ShapeReadsDaySums` | crates/domain/src/forecast/series.rs:425-470 | only the keys and the day sums of the prediction matter |
| `Shape.ShapeIsIdempotent` | crates/domain/src/forecast/series.rs:425-470 | shaping twice is shaping once |
| `Shape.ShapeIsUnique` | crates/domain/src/forecast/series.rs:410-413 | on a day with a full profile, only the shaped prediction has the day sum and the differences of the profile |
| `DaySums.DaySumOverMore` | crates/domain/src/forecast/series.rs:431-440 | a day sum does not depend on further keys |
| `Correction.CollectTerms` | crates/domain/src/forecast/correction.rs:324-334 | a term for every served quarter with a profile price and a prediction |
| `Correction.DayTotals` | crates/domain/src/forecast/correction.rs:344-349 | the sum and the count of the terms of every UTC day |
| `Correction.ApplyTerms` | crates/domain/src/forecast/correction.rs:335-359 | the corrected prediction of either decomposition |
| `Correction.Prediction.Correct` | crates/domain/src/forecast/correction.rs:314-362 | the predictions become the corrected ones in place, or stay when the fit fell back; the counters add up to all predictions |
| `Correction.DeviationKeepsDaySums` | crates/domain/src/forecast/correction.rs:343-357 | the day-deviation correction keeps the sum of every UTC day |
| `Correction.LevelSurvives` | crates/domain/src/forecast/correction.rs:47-52 | the daily level of the model survives the shape step and the day-deviation correction |
| `Correction.DeviationFollowsFit` | crates/domain/src/forecast/correction.rs:343-357 | corrections within a day differ like the output of the fit |
| `Correction.JointMovesDaySums` | crates/domain/src/forecast/correction.rs:335-359 | the joint correction moves the sum of a UTC day by the new values less the predictions that they replace, so it keeps the sum if and only if these agree |
| `Correction.JointSetsTheLevel` | crates/domain/src/forecast/correction.rs:43-46 | on a fully corrected day the sum is that of the profile and the fit, for any predictions |
| `Tails.ExtendWithLastWeek` | crates/domain/src/forecast/series.rs:68-102 | keeps the forecast and adds, after its last quarter, the mean of the last weeks to every quarter that has one |
| `Tails.FillGapsFromEarlierWeeks` | crates/domain/src/forecast/series.rs:107-152 | the mean of the nearest earlier weeks for exactly the unknown quarters that have one |
| `Tails.FillTakesNearest` | crates/domain/src/forecast/series.rs:130-141 | the fill takes as many weeks as it wants, or all that the lookback holds |
| `Tails.FillEqualsExtension` | crates/domain/src/forecast/series.rs:110-112 | a quarter whose first weeks all hold a value has the same fill and extension; so has one without an older value |
| `Tails.FillDiffersOtherwise` | crates/domain/src/forecast/series.rs:110-112 | in every other case the fill averages more values |
| `Tails.FillCoversExtension` | crates/domain/src/forecast/series.rs:107-152 | wherever the extension has a value, the fill has one |
| `Tails.WeeksBackKeepsTime` | crates/domain/src/forecast/series.rs:68-152 | some weeks back is seven days a week earlier, at the same time of the same weekday |
| `ForecastCache.RunKeepsInv` | crates/server/src/forecast_cache.rs:281-370 | in every interleaving, the lock, the builds, the history, the readers and the warnings stay consistent |
| `ForecastCache.LaterReadsFollowEarlierSwap` | crates/server/src/forecast_cache.rs:280-286 | every read of a later result happens after the swap of the earlier one, and sees a database at least as new as every read of the earlier result |
| `ForecastCache.IssuesNeverGoBack` | crates/server/src/forecast_cache.rs:142-188 | while the stored issuances only grow, the grid issuance of the served result never goes back |
| `ForecastCache.ReadersHoldWholeResults` | crates/server/src/forecast_cache.rs:9-18 | a reader holds a published result with every query in stage order, and keeps it whatever is published, fails or is cancelled |
| `ForecastCache.ReadersNeverGoBack` | crates/server/src/forecast_cache.rs:289-306 | a reader that takes the result again does not get an older one |
| `ForecastCache.OnlySwapsChangeTheResult` | crates/server/src/forecast_cache.rs:308-313 | failures and cancellations leave the current result |
| `ForecastCache.OneBuildAtATime` | crates/server/src/forecast_cache.rs:283-286 | at most one refresh builds at a time |
| `ForecastCache.NeverStuck` | crates/server/src/forecast_cache.rs:308-361 | in every reachable state a build has a query to run or can publish, can fail or be cancelled, and every end of it lets the next task take the lock |
| `ForecastCache.QueriesInTurn` | crates/server/src/forecast_cache.rs:142-188 | which reads must be done before each one: the delivery, the FI prices, the neighbours, the four grid reads together, and the three times together |
| `ForecastCache.StaleIsReportedOnce` | crates/server/src/forecast_cache.rs:243-256 | a stale result is reported the first time it is served and never again |
| `ForecastCache.WarningsAreForStale` | crates/server/src/forecast_cache.rs:236-256 | a warning is only ever for a result that was served when the newest issuance of its grid data was over two hours old |
| `ForecastCache.HistoryOnlyGrows` | crates/server/src/forecast_cache.rs:299-306 | published results are never withdrawn |
| `CacheOrder.PublishedByRefresh` | crates/server/src/forecast_cache.rs:308-361 | every published result is that of one refresh, and carries the clock reading that its caller passed |
| `CacheOrder.RefreshesDoNotOverlap` | crates/server/src/forecast_cache.rs:283-286 | of two refreshes that publish, the later one takes the lock after the publication of the earlier one |
| `CacheOrder.BuildsInOrderExactly` | crates/server/src/forecast_cache.rs:316-323 | in every run, the build instants of the published results never go back if and only if the refreshes that publish take the lock in the order of their clock readings |
| `CacheOrder.OneVersionExactly` | crates/server/src/forecast_cache.rs:142-188 | in every run, all reads of a published result saw one database version if and only if no write falls between two of them |
| `ForecastCache.BuildInstantCanGoBack` | crates/server/src/forecast_cache.rs:316-323 | a run in which they do go back |
| `ForecastCache.ResultCanMixVersions` | crates/server/src/forecast_cache.rs:142-188 | a run in which a write between two queries leaves a result of two versions |

## Left out

- Floating-point rounding, overflow and negative zero in the ridge fit, bands, prices, metrics and shapes: these use
  exact reals. Infinities and NaN are modelled in the bands and in the number parser only.
- Decimal texts keep their exact value: the final rounding of a decimal to a double, and the choice of the shortest
  digits of a double, belong to the host language.
- IANA time zone data and the range checks of instants: a zone is an abstract function of the day number, and every
  instant of a training issuance is in range. Saturating 64-bit arithmetic of quarters is unbounded here.
- Query texts are sequences of UTF-16 code units without surrogate pairs.
- Grid.BuildGridSeries: the counters of extended and filled quarters, which only the diagnostics read, are not kept; a
  record without a finite value, which the buckets skip, does not exist over exact reals.
- Tails.ExtendWithLastWeek: series with a key off the quarter grid are not modelled; the key type excludes them.
- Calendar.EasterFromOffset: years from 0 only; the truncating division of negative years is not modelled.
- Backtest.LeaksAreLateVintages: the input timestamps form a set; their order in the report is not modelled.
- The forecast cache is a state machine over atomic steps; the lock queue, the blocking pool, log lines other than the
  stale report, and the result built for one request while the cache is empty are not part of it.
- The profile prices of the shape step (persistence, previous published day, weekday mean) are an arbitrary partial
  map; the local-time lookups behind them are not part of this model.
- The rows that the quarter correction is fitted on (its output is an arbitrary function of the quarter and the profile
  price), the sanity clamp of the predictions, the bias, error and precision metrics, the contract price terms, and the
  assembly of the evaluation report are not part of this model.
- HTTP routes, configuration, authentication, database queries, and process lifecycle.
