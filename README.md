# Naive Bayes shared core (linfa-bayes `base_nb.rs`) in Dafny

This project models the two algorithms that every Naive Bayes variant of
linfa-bayes shares, and proves what they promise:

- **Prediction** (`NaiveBayes::predict_inplace`). A fitted model's
  `joint_log_likelihood` gives, for each class, the log-likelihood of every
  sample. The prediction copies the classes into a list and the scores into a
  `nclasses x n` table. For each sample it takes the class index of greatest
  score with `Iterator::max_by`, then overwrites the output label buffer.
  Module `NaiveBayes`, file `naive_bayes.dfy`.
- **Class filter** (`filter`). This collects the positions whose target equals
  a label. It allocates a zero matrix with one row per match and copies those
  rows of the feature matrix into it, in order. Module `ClassFilter`, file
  `class_filter.dfy`.

Modelling choices:

- The `HashMap<&L, Array1<F>>` that `joint_log_likelihood` returns is a
  sequence of `ClassScores(key, scores)` entries in the map's iteration order.
  That order is what `predict_inplace` enumerates, so it fixes the tie-break.
  `joint_log_likelihood` belongs to the concrete variants, so its result is an
  input of `PredictInplace`.
- Scores are `real` and labels are a type parameter. Matrices are `array2<real>`
  and the output buffer is an `array<L>`.
- The three panics below become error values, not preconditions:
  - `Fail(RowCountMismatch)`: `assert_eq!(x.nrows(), y.len())` fails.
  - `Fail(EmptyClassSet)`: the `unwrap` of `max_by` over an empty class range fails.
  - `Err(RowOutOfBounds(r))`: `x.slice(s![r, ..])` is asked for a row that `x` does not have.

  In each case the output buffer is left untouched. The two other panics of
  `predict_inplace` (a score vector of the wrong length, a NaN score) are not
  modelled; see "## Left out".
  `module Wrappers` (`wrappers.dfy`) holds the `Option`, `Result` and `Outcome` types.

Behaviour worth noting:

- **Tie-break.** `Iterator::max_by` keeps the later element when two compare
  equal, so the code picks the LAST class with the maximal score, in the
  order the map is iterated. `MaxBy` and its lemmas state that rule.
- **Unorderable scores.** `partial_cmp(..).unwrap()` panics on a NaN score.
  Reals are totally ordered, so this case does not arise in the model (see
  Left out).
- **Length mismatch in `filter`.** `filter` does not check that the targets
  and the rows have the same length: surplus rows are ignored, and only a
  matching target past the last row panics. The model does the same.

## Model

| member | source | states |
|---|---|---|
| NaiveBayes.MaxBy | algorithms/linfa-bayes/src/base_nb.rs:46-48 | `max_by` over the class indices returns `None` exactly for an empty range. Otherwise it returns an index whose score is greater than or equal to every class's score, and every later index scores strictly less: the last maximum wins a tie |
| NaiveBayes.MaxByExactly | algorithms/linfa-bayes/src/base_nb.rs:46-47 | Both directions of the characterisation: `MaxBy` returns `k` if and only if `k` is the last position of a maximum |
| NaiveBayes.Predict | algorithms/linfa-bayes/src/base_nb.rs:29-51 | The prediction for `n` samples fails (the `unwrap` panic) exactly when there are samples but no classes. Otherwise it has exactly `n` labels, and label `i` is the key of a class that is the last maximum of column `i` |
| NaiveBayes.PredictedLabelIsClass | algorithms/linfa-bayes/src/base_nb.rs:34-49 | Every predicted label is one of the joint log-likelihood map's keys |
| NaiveBayes.PredictedLabelScoresHighest | algorithms/linfa-bayes/src/base_nb.rs:43-49 | The map's keys are distinct. So the class whose key is predicted for sample `i` has a score at least every class's score, and strictly above every class after it in iteration order |
| NaiveBayes.PredictStrictMaximum | algorithms/linfa-bayes/src/base_nb.rs:43-51 | When one class scores strictly above all others on a sample, the prediction succeeds and that class's key is the sample's label |
| NaiveBayes.PredictTwoClassesExample | algorithms/linfa-bayes/src/base_nb.rs:43-51 | Take the scores a = [0.1, -5.0] and b = [-0.2, -1.0]. The predictions are ["a", "b"] |
| NaiveBayes.PredictInplace | algorithms/linfa-bayes/src/base_nb.rs:18-52 | A row count different from the buffer length panics with `y` unchanged. Otherwise the class list and likelihood table are built by loops, and the outcome and the new `y` are exactly `Predict`'s result; `y` is unchanged on the empty-class panic |
| ClassFilter.MatchingIndices | algorithms/linfa-bayes/src/base_nb.rs:80-84 | The collected `index` holds only positions whose target is the label, in strictly increasing order, and holds every such position |
| ClassFilter.MatchingIndicesCount | algorithms/linfa-bayes/src/base_nb.rs:80-84 | `index` has as many entries as the label has occurrences among the targets |
| ClassFilter.MatchingIndicesExactly | algorithms/linfa-bayes/src/base_nb.rs:80-84 | Any increasing list of exactly the matching positions is `index`, so the filter's row order is determined |
| ClassFilter.MatchingIndicesExample | algorithms/linfa-bayes/src/base_nb.rs:80-84 | For targets 'a', 'b', 'a': the label 'a' is at positions [0, 2], 'b' at [1], and 'c' nowhere |
| ClassFilter.FilterRowsShape | algorithms/linfa-bayes/src/base_nb.rs:80-90 | The filtered matrix has one row per occurrence of the label, and none when the label does not occur. Row `k` is row `index[k]` of the input, and its target is the label |
| ClassFilter.FilterRowsExample | algorithms/linfa-bayes/src/base_nb.rs:75-92 | Filter the rows [[1,2],[3,4],[5,6]] with targets 'a','b','a'. This gives [[1,2],[5,6]] for 'a', [[3,4]] for 'b', and no rows for 'c' |
| ClassFilter.FilterRowsSnoc | algorithms/linfa-bayes/src/base_nb.rs:80-90 | Appending a row and its target appends that row to the output exactly when its target is the label |
| ClassFilter.FilterEachIsPermutation | algorithms/linfa-bayes/src/base_nb.rs:75-92 | Filter once per label from a duplicate-free list that covers every target, and concatenate in any label order. The result is a permutation of the input rows |
| ClassFilter.AssignRow | algorithms/linfa-bayes/src/base_nb.rs:90 | `row_mut(k).assign(..)` makes row `k` of the destination a copy of the source row and leaves every other row unchanged |
| ClassFilter.Filter | algorithms/linfa-bayes/src/base_nb.rs:75-92 | A matching position past the last row panics, at the first such position. Otherwise the result is a fresh matrix with one row per match and `x`'s column count. Its rows are `FilterRows` of `x`'s rows |

## Left out

- `NaiveBayesValidParams::fit` (base_nb.rs:64-72) is not modelled. It computes
  and sorts `unique_classes`, never uses them, and returns
  `fit_with(model_none, dataset)`. `fit_with`, `DatasetBase`, `AsTargets` and
  `Labels` are linfa traits outside this code. The incremental-fit equivalence
  belongs to the concrete variants, which are not part of this model.
- `joint_log_likelihood` is implemented by each variant with floating-point
  formulas that are not part of this model. `PredictInplace` takes its result
  as a parameter, and nothing ties that result to `x` beyond its length.
- Floating point: scores are reals. A NaN score, which makes
  `partial_cmp(..).unwrap()` panic, cannot be expressed.
- `HashMap` iteration order is replaced by the order of the input sequence.
  The map type at base_nb.rs:16 uses the default `RandomState` hasher, which
  is seeded afresh for every new map, so two calls on the same input can list
  the classes in different orders and break an exact tie differently. The
  last-maximum tie-break holds only for the order the model is given; the
  model says nothing about determinism from one call to the next.
  The model proves nothing about which order a `HashMap` produces.
- `PredictInplace` requires every score vector to have one entry per sample.
  `likelihood.row_mut(i).assign(value)` would otherwise broadcast a length-1
  vector or panic, and that ndarray behaviour is not modelled.
- `PredictInplace`: `*y = ...` replaces the output array with a newly collected
  one of the same length. The model writes the same labels into the caller's
  buffer, which is observably the same.
- ndarray views, strides and the `Data` storage generics are not modelled.
  Matrices are plain `array2<real>` values read in row-major order.
