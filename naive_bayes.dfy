/** The prediction half of the `NaiveBayes` trait: turning the per-class joint
    log-likelihoods of a batch of samples into one class label per sample.

    `joint_log_likelihood` is implemented by each concrete variant; here its
    result is an input. The `HashMap<&L, Array1<F>>` it returns is modelled as
    the sequence of its entries in iteration order, and scores are reals. */
module NaiveBayes {
  import opened Wrappers

  /** One entry of the joint log-likelihood map: a class label and, for every
      sample, the log-likelihood that the sample belongs to that class. */
  datatype ClassScores<L> = ClassScores(key: L, scores: seq<real>)

  /** Why `predict_inplace` panics. */
  datatype PredictPanic =
    | RowCountMismatch   // `assert_eq!(x.nrows(), y.len())` fails
    | EmptyClassSet      // `max_by` over `0..0` is `None`, and it is unwrapped

  /** Every score vector covers the `n` samples being predicted. */
  predicate ScoresCover<L>(jll: seq<ClassScores<L>>, n: nat) {
    forall c | 0 <= c < |jll| :: |jll[c].scores| == n
  }

  /** The keys of a map are pairwise distinct. */
  predicate DistinctLabels<L(==)>(jll: seq<ClassScores<L>>) {
    forall c, d | 0 <= c < d < |jll| :: jll[c].key != jll[d].key
  }

  /** `k` attains the maximum of `col`, and every later position is strictly
      smaller: `k` is the last position of a maximum. */
  ghost predicate IsLastArgMax(col: seq<real>, k: int) {
    && 0 <= k < |col|
    && (forall c | 0 <= c < |col| :: col[c] <= col[k])
    && (forall c | k < c < |col| :: col[c] < col[k])
  }

  /** `(0..|col|).max_by(|&i, &j| col[i].partial_cmp(&col[j]).unwrap())`.
      `max_by` folds from the left and keeps the running best only when it
      compares Greater than the next index, so an equal later score replaces
      it; the empty range yields `None`. */
  function MaxBy(col: seq<real>): (r: Option<nat>)
    ensures r.None? <==> |col| == 0
    ensures r.Some? ==> IsLastArgMax(col, r.value)
  {
    if |col| == 0 then None
    else
      match MaxBy(col[..|col| - 1])
      case None => Some(0)
      case Some(best) =>
        if col[best] > col[|col| - 1] then Some(best) else Some(|col| - 1)
  }

  /** The last-maximum property determines the index `MaxBy` picks. */
  lemma MaxByExactly(col: seq<real>, k: nat)
    ensures MaxBy(col) == Some(k) <==> IsLastArgMax(col, k)
  {
    if IsLastArgMax(col, k) {
      var m := MaxBy(col).value;
      assert col[m] == col[k];
    }
  }

  /** Column `i` of the `nclasses x n` likelihood table: the score of every
      class for sample `i`, in class order. */
  function Column<L>(jll: seq<ClassScores<L>>, n: nat, i: nat): (col: seq<real>)
    requires ScoresCover(jll, n) && i < n
    ensures |col| == |jll|
    ensures forall c | 0 <= c < |jll| :: col[c] == jll[c].scores[i]
  {
    seq(|jll|, c requires 0 <= c < |jll| => jll[c].scores[i])
  }

  /** What `predict_inplace` stores in `y` for `n` samples, once the row
      counts agree: for each sample, the label of the class whose score is
      greatest, the last such class on a tie; or the panic of unwrapping an
      empty `max_by` when there are samples but no classes. */
  function Predict<L>(jll: seq<ClassScores<L>>, n: nat): (r: Result<seq<L>, PredictPanic>)
    requires ScoresCover(jll, n)
    ensures r.Err? <==> n > 0 && |jll| == 0
    ensures r.Err? ==> r.error == EmptyClassSet
    ensures r.Ok? ==> |r.value| == n
    ensures r.Ok? ==> forall i | 0 <= i < n ::
      exists k :: IsLastArgMax(Column(jll, n, i), k) && r.value[i] == jll[k].key
  {
    if n > 0 && |jll| == 0 then Err(EmptyClassSet)
    else
      var p := seq(n, i requires 0 <= i < n => jll[MaxBy(Column(jll, n, i)).value].key);
      assert forall i | 0 <= i < n :: IsLastArgMax(Column(jll, n, i), MaxBy(Column(jll, n, i)).value);
      Ok(p)
  }

  /** Every predicted label is a key of the joint log-likelihood map. */
  lemma PredictedLabelIsClass<L>(jll: seq<ClassScores<L>>, n: nat, i: nat)
    requires ScoresCover(jll, n) && i < n && Predict(jll, n).Ok?
    ensures exists c :: 0 <= c < |jll| && jll[c].key == Predict(jll, n).value[i]
  {
    var k :| IsLastArgMax(Column(jll, n, i), k) && Predict(jll, n).value[i] == jll[k].key;
    assert 0 <= k < |jll| && jll[k].key == Predict(jll, n).value[i];
  }

  /** With distinct keys, the class carrying the predicted label has the
      greatest score for that sample, and every class after it in iteration
      order scores strictly less (the tie-break of `max_by`). */
  lemma PredictedLabelScoresHighest<L>(jll: seq<ClassScores<L>>, n: nat, i: nat, c: nat)
    requires ScoresCover(jll, n) && DistinctLabels(jll) && i < n
    requires Predict(jll, n).Ok? && c < |jll| && jll[c].key == Predict(jll, n).value[i]
    ensures forall d | 0 <= d < |jll| :: jll[d].scores[i] <= jll[c].scores[i]
    ensures forall d | c < d < |jll| :: jll[d].scores[i] < jll[c].scores[i]
  {
    var col := Column(jll, n, i);
    var k :| IsLastArgMax(col, k) && Predict(jll, n).value[i] == jll[k].key;
    assert jll[k].key == jll[c].key;
    assert k == c;
  }

  /** A class whose score for a sample is strictly greater than every other
      class's is the one predicted for that sample. */
  lemma PredictStrictMaximum<L>(jll: seq<ClassScores<L>>, n: nat, i: nat, k: nat)
    requires ScoresCover(jll, n) && i < n && k < |jll|
    requires forall c | 0 <= c < |jll| && c != k :: jll[c].scores[i] < jll[k].scores[i]
    ensures Predict(jll, n) == Ok(Predict(jll, n).value)
    ensures Predict(jll, n).value[i] == jll[k].key
  {
    var col := Column(jll, n, i);
    var j :| IsLastArgMax(col, j) && Predict(jll, n).value[i] == jll[j].key;
    assert IsLastArgMax(col, j);
    assert 0 <= j < |col|;
    assert col[k] <= col[j];
    assert j == k;
  }

  /** A table with two classes over two samples: "a" wins the first sample,
      "b" the second. */
  lemma PredictTwoClassesExample()
    ensures Predict([ClassScores("a", [0.1, -5.0]), ClassScores("b", [-0.2, -1.0])], 2)
         == Ok(["a", "b"])
  {
    var jll := [ClassScores("a", [0.1, -5.0]), ClassScores("b", [-0.2, -1.0])];
    PredictStrictMaximum(jll, 2, 0, 0);
    PredictStrictMaximum(jll, 2, 1, 1);
    assert Predict(jll, 2).value == ["a", "b"];
  }

  /** Column `i` of a likelihood matrix. */
  function ColumnOf(m: array2<real>, i: nat): (col: seq<real>)
    reads m
    requires i < m.Length1
    ensures |col| == m.Length0
    ensures forall c | 0 <= c < m.Length0 :: col[c] == m[c, i]
  {
    seq(m.Length0, c requires 0 <= c < m.Length0 reads m => m[c, i])
  }

  /** `predict_inplace(x, y)` given the map `jll` that
      `joint_log_likelihood(x)` returns. A row-count mismatch and an empty
      class set with samples to predict both panic before `y` is assigned;
      otherwise `y` is overwritten with the prediction for every sample. */
  method PredictInplace<L>(x: array2<real>, jll: seq<ClassScores<L>>, y: array<L>)
    returns (outcome: Outcome<PredictPanic>)
    requires ScoresCover(jll, x.Length0)
    modifies y
    ensures x.Length0 != y.Length ==> outcome == Fail(RowCountMismatch) && unchanged(y)
    ensures x.Length0 == y.Length ==>
      match Predict(jll, x.Length0)
      case Ok(p) => outcome == Pass && y[..] == p
      case Err(e) => outcome == Fail(e) && unchanged(y)
  {
    if x.Length0 != y.Length {
      return Fail(RowCountMismatch);
    }
    var nclasses := |jll|;
    var n := x.Length0;
    var classes: seq<L> := [];
    var likelihood := new real[nclasses, n]((_, _) => 0.0);

    for i := 0 to nclasses
      modifies likelihood
      invariant |classes| == i
      invariant forall c | 0 <= c < i :: classes[c] == jll[c].key
      invariant forall c, j | 0 <= c < i && 0 <= j < n :: likelihood[c, j] == jll[c].scores[j]
    {
      classes := classes + [jll[i].key];
      // likelihood.row_mut(i).assign(value)
      for j := 0 to n
        modifies likelihood
        invariant forall c, j' | 0 <= c < i && 0 <= j' < n :: likelihood[c, j'] == jll[c].scores[j']
        invariant forall j' | 0 <= j' < j :: likelihood[i, j'] == jll[i].scores[j']
      {
        likelihood[i, j] := jll[i].scores[j];
      }
    }

    if n > 0 && nclasses == 0 {
      return Fail(EmptyClassSet);
    }
    forall j | 0 <= j < n
      ensures ColumnOf(likelihood, j) == Column(jll, n, j)
    {
    }
    var predictions := seq(n, j requires 0 <= j < n reads likelihood =>
      classes[MaxBy(ColumnOf(likelihood, j)).value]);
    forall j | 0 <= j < n {
      y[j] := predictions[j];
    }
    outcome := Pass;
  }
}
