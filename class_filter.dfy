/** `filter(x, y, ycondition)`: the rows of a feature matrix whose target is
    one given class label, in their original order and with all their
    columns. Concrete Naive Bayes variants call it once per class when they
    estimate per-class statistics. */
module ClassFilter {
  import opened Wrappers

  /** Why `filter` panics: the slice `x.slice(s![r, ..])` of a matching
      position `r` that is not a row of `x` (the targets are longer than the
      matrix). */
  datatype FilterPanic = RowOutOfBounds(row: nat)

  /** The positions `i` with `y[i] == ycondition`, in increasing order: the
      `index` vector that `filter_map` over `enumerate` collects. */
  function MatchingIndices<L(==)>(y: seq<L>, ycondition: L): (index: seq<nat>)
    ensures forall k | 0 <= k < |index| :: index[k] < |y| && y[index[k]] == ycondition
    ensures forall k, l | 0 <= k < l < |index| :: index[k] < index[l]
    ensures forall i | 0 <= i < |y| && y[i] == ycondition :: i in index
  {
    if |y| == 0 then []
    else MatchingIndices(y[..|y| - 1], ycondition) + (if y[|y| - 1] == ycondition then [|y| - 1] else [])
  }

  /** There are as many matching positions as occurrences of the label. */
  lemma {:induction false} MatchingIndicesCount<L>(y: seq<L>, ycondition: L)
    ensures |MatchingIndices(y, ycondition)| == multiset(y)[ycondition]
  {
    if |y| > 0 {
      var front := y[..|y| - 1];
      assert y == front + [y[|y| - 1]];
      MatchingIndicesCount(front, ycondition);
    }
  }

  /** Strictly increasing: each position listed once, in order. */
  predicate Increasing(index: seq<nat>) {
    forall k, l | 0 <= k < l < |index| :: index[k] < index[l]
  }

  /** Two increasing sequences with the same elements are equal. */
  lemma {:induction false} IncreasingUnique(a: seq<nat>, b: seq<nat>)
    requires Increasing(a) && Increasing(b)
    requires forall i :: i in a <==> i in b
    ensures a == b
  {
    if |a| > 0 {
      assert a[0] in b;
    }
    if |b| > 0 {
      assert b[0] in a;
    }
    if a != [] {
      assert a[0] == b[0];
      forall i
        ensures i in a[1..] <==> i in b[1..]
      {
        assert i in a[1..] <==> i in a && i != a[0];
        assert i in b[1..] <==> i in b && i != b[0];
      }
      IncreasingUnique(a[1..], b[1..]);
    }
  }

  /** `MatchingIndices` is the only increasing list of exactly the positions
      whose target is the label. */
  lemma MatchingIndicesExactly<L>(y: seq<L>, ycondition: L, index: seq<nat>)
    requires Increasing(index)
    requires forall k | 0 <= k < |index| :: index[k] < |y| && y[index[k]] == ycondition
    requires forall i | 0 <= i < |y| && y[i] == ycondition :: i in index
    ensures index == MatchingIndices(y, ycondition)
  {
    var m := MatchingIndices(y, ycondition);
    forall i
      ensures i in index <==> i in m
    {
      if i in index {
        var k :| 0 <= k < |index| && index[k] == i;
      }
      if i in m {
        var k :| 0 <= k < |m| && m[k] == i;
      }
    }
    IncreasingUnique(index, m);
  }

  /** Every matching position is a row of a matrix with `nrows` rows. */
  predicate MatchesWithin<L(==)>(y: seq<L>, ycondition: L, nrows: nat) {
    forall i | nrows <= i < |y| :: y[i] != ycondition
  }

  /** The elements of `xs` at the positions `index`, in the order of `index`. */
  function Gather<T>(xs: seq<T>, index: seq<nat>): (r: seq<T>)
    requires forall k | 0 <= k < |index| :: index[k] < |xs|
    ensures |r| == |index|
    ensures forall k | 0 <= k < |r| :: r[k] == xs[index[k]]
  {
    seq(|index|, k requires 0 <= k < |index| => xs[index[k]])
  }

  /** `filter` on a matrix given as its sequence of rows. */
  function FilterRows<T, L(==)>(xs: seq<T>, y: seq<L>, ycondition: L): seq<T>
    requires MatchesWithin(y, ycondition, |xs|)
  {
    Gather(xs, MatchingIndices(y, ycondition))
  }

  /** The filtered rows are exactly as many as the occurrences of the label,
      and row `k` of the result is row `index[k]` of the input, where `index`
      lists the matching positions in increasing order; with no match the
      result is empty. */
  lemma FilterRowsShape<T, L>(xs: seq<T>, y: seq<L>, ycondition: L)
    requires MatchesWithin(y, ycondition, |xs|)
    ensures |FilterRows(xs, y, ycondition)| == multiset(y)[ycondition]
    ensures ycondition !in y ==> FilterRows(xs, y, ycondition) == []
    ensures forall k | 0 <= k < |FilterRows(xs, y, ycondition)| ::
      var i := MatchingIndices(y, ycondition)[k];
      y[i] == ycondition && FilterRows(xs, y, ycondition)[k] == xs[i]
  {
    MatchingIndicesCount(y, ycondition);
  }

  /** Among the targets 'a', 'b', 'a', the label 'a' sits at the first and
      last positions. */
  lemma MatchingIndicesExample(y: seq<char>)
    requires y == ['a', 'b', 'a']
    ensures MatchingIndices(y, 'a') == [0, 2]
    ensures MatchingIndices(y, 'b') == [1]
    ensures MatchingIndices(y, 'c') == []
  {
    MatchingIndicesExactly(y, 'a', [0, 2]);
    MatchingIndicesExactly(y, 'b', [1]);
    MatchingIndicesExactly(y, 'c', []);
  }

  /** Three rows with targets 'a', 'b', 'a': the class 'a' keeps the first
      and last rows, 'b' the middle one, and a label that never occurs gives
      no rows. */
  lemma FilterRowsExample(xs: seq<seq<real>>, y: seq<char>)
    requires xs == [[1.0, 2.0], [3.0, 4.0], [5.0, 6.0]] && y == ['a', 'b', 'a']
    ensures FilterRows(xs, y, 'a') == [[1.0, 2.0], [5.0, 6.0]]
    ensures FilterRows(xs, y, 'b') == [[3.0, 4.0]]
    ensures FilterRows(xs, y, 'c') == []
  {
    MatchingIndicesExample(y);
  }

  /** Appending one row and its target to the input appends that row to the
      output exactly when its target is the label. */
  lemma {:induction false} FilterRowsSnoc<T, L>(xs: seq<T>, y: seq<L>, ycondition: L, row: T, target: L)
    requires |xs| == |y|
    ensures FilterRows(xs + [row], y + [target], ycondition)
         == FilterRows(xs, y, ycondition) + (if target == ycondition then [row] else [])
  {
    var y' := y + [target];
    assert y'[..|y'| - 1] == y;
    var index := MatchingIndices(y, ycondition);
    assert MatchingIndices(y', ycondition) == index + (if target == ycondition then [|y|] else []);
  }

  /** The rows of every label in `labels`, label after label. */
  function FilterEach<T, L(==)>(xs: seq<T>, y: seq<L>, labels: seq<L>): seq<T>
    requires |xs| == |y|
  {
    if labels == [] then []
    else FilterRows(xs, y, labels[0]) + FilterEach(xs, y, labels[1..])
  }

  /** Labels listed without repetition. */
  predicate Distinct<L(==)>(labels: seq<L>) {
    forall a, b | 0 <= a < b < |labels| :: labels[a] != labels[b]
  }

  lemma {:induction false} FilterEachSnoc<T, L>(xs: seq<T>, y: seq<L>, labels: seq<L>, row: T, target: L)
    requires |xs| == |y| && Distinct(labels)
    ensures multiset(FilterEach(xs + [row], y + [target], labels))
         == multiset(FilterEach(xs, y, labels)) + (if target in labels then multiset{row} else multiset{})
  {
    if labels != [] {
      FilterRowsSnoc(xs, y, labels[0], row, target);
      FilterEachSnoc(xs, y, labels[1..], row, target);
      assert target in labels[1..] <==> target in labels && target != labels[0];
    }
  }

  /** Filtering once per class over a set of distinct labels that covers every
      target, and concatenating the results in any label order, gives back the
      rows of the matrix rearranged: every row lands in exactly one subset. */
  lemma {:induction false} FilterEachIsPermutation<T, L>(xs: seq<T>, y: seq<L>, labels: seq<L>)
    requires |xs| == |y| && Distinct(labels)
    requires forall i | 0 <= i < |y| :: y[i] in labels
    ensures multiset(FilterEach(xs, y, labels)) == multiset(xs)
  {
    if |xs| == 0 {
      FilterEachEmpty(xs, y, labels);
    } else {
      var m := |xs| - 1;
      assert xs == xs[..m] + [xs[m]];
      assert y == y[..m] + [y[m]];
      FilterEachIsPermutation(xs[..m], y[..m], labels);
      FilterEachSnoc(xs[..m], y[..m], labels, xs[m], y[m]);
    }
  }

  lemma {:induction false} FilterEachEmpty<T, L>(xs: seq<T>, y: seq<L>, labels: seq<L>)
    requires |xs| == |y| == 0
    ensures FilterEach(xs, y, labels) == []
  {
    if labels != [] {
      FilterEachEmpty(xs, y, labels[1..]);
    }
  }

  /** The rows of a matrix, each as a sequence of its entries. */
  function Rows(m: array2<real>): (rows: seq<seq<real>>)
    reads m
    ensures |rows| == m.Length0
    ensures forall i | 0 <= i < m.Length0 :: |rows[i]| == m.Length1
    ensures forall i, j | 0 <= i < m.Length0 && 0 <= j < m.Length1 :: rows[i][j] == m[i, j]
  {
    seq(m.Length0, i requires 0 <= i < m.Length0 reads m =>
      seq(m.Length1, j requires 0 <= j < m.Length1 reads m => m[i, j]))
  }

  /** A matrix whose row `k` holds, entry for entry, row `index[k]` of `x`
      has as its rows the gathered rows of `x`. */
  lemma RowsGathered(sub: array2<real>, x: array2<real>, index: seq<nat>)
    requires sub.Length0 == |index| && sub.Length1 == x.Length1
    requires forall k | 0 <= k < |index| :: index[k] < x.Length0
    requires forall k, j | 0 <= k < |index| && 0 <= j < x.Length1 :: sub[k, j] == x[index[k], j]
    ensures Rows(sub) == Gather(Rows(x), index)
  {
    var rows, xrows := Rows(sub), Rows(x);
    forall k | 0 <= k < |index|
      ensures rows[k] == xrows[index[k]]
    {
      assert forall j | 0 <= j < x.Length1 :: rows[k][j] == xrows[index[k]][j];
    }
  }

  /** When the matching positions before the `k`-th are rows of the matrix
      and the `k`-th is not, the `k`-th is the first matching position past
      the last row. */
  lemma FirstMatchPastEnd<L>(y: seq<L>, ycondition: L, nrows: nat, k: nat)
    requires k < |MatchingIndices(y, ycondition)|
    requires forall l | 0 <= l < k :: MatchingIndices(y, ycondition)[l] < nrows
    ensures forall i | nrows <= i < MatchingIndices(y, ycondition)[k] :: y[i] != ycondition
  {
    var index := MatchingIndices(y, ycondition);
    forall i | 0 <= i < |y| && y[i] == ycondition
      ensures i < nrows || index[k] <= i
    {
      var l :| 0 <= l < |index| && index[l] == i;
      if k < l {
        assert index[k] < index[l];
      }
    }
  }

  /** When every matching position is a row of the matrix, no target past the
      last row carries the label. */
  lemma AllMatchesWithin<L>(y: seq<L>, ycondition: L, nrows: nat)
    requires forall l | 0 <= l < |MatchingIndices(y, ycondition)| :: MatchingIndices(y, ycondition)[l] < nrows
    ensures MatchesWithin(y, ycondition, nrows)
  {
    var index := MatchingIndices(y, ycondition);
    forall i | 0 <= i < |y| && y[i] == ycondition
      ensures i < nrows
    {
      var l :| 0 <= l < |index| && index[l] == i;
    }

  }

  /** `dst.row_mut(k).assign(&src.slice(s![row, ..]))`: row `k` of `dst`
      becomes a copy of row `row` of `src`; the other rows keep their entries. */
  method AssignRow(dst: array2<real>, k: nat, src: array2<real>, row: nat)
    requires k < dst.Length0 && row < src.Length0 && dst.Length1 == src.Length1 && dst != src
    modifies dst
    ensures forall j | 0 <= j < dst.Length1 :: dst[k, j] == src[row, j]
    ensures forall l, j | 0 <= l < dst.Length0 && l != k && 0 <= j < dst.Length1 :: dst[l, j] == old(dst[l, j])
  {
    for j := 0 to dst.Length1
      invariant forall j' | 0 <= j' < j :: dst[k, j'] == src[row, j']
      invariant forall l, j' | 0 <= l < dst.Length0 && l != k && 0 <= j' < dst.Length1 :: dst[l, j'] == old(dst[l, j'])
    {
      dst[k, j] := src[row, j];
    }
  }

  /** `filter(x, y, ycondition)`. A freshly allocated `(matches, ncols)`
      matrix is filled row by row with the matching rows of `x`; a matching
      position past the last row of `x` panics at the first such position. */
  method Filter<L(==)>(x: array2<real>, y: seq<L>, ycondition: L)
    returns (r: Result<array2<real>, FilterPanic>)
    ensures r.Err? <==> !MatchesWithin(y, ycondition, x.Length0)
    ensures r.Err? ==> var row := r.error.row;
      x.Length0 <= row < |y| && y[row] == ycondition &&
      forall i | x.Length0 <= i < row :: y[i] != ycondition
    ensures r.Ok? ==>
      && fresh(r.value)
      && r.value.Length0 == |MatchingIndices(y, ycondition)|
      && r.value.Length1 == x.Length1
      && Rows(r.value) == FilterRows(Rows(x), y, ycondition)
  {
    var index := MatchingIndices(y, ycondition);
    var xsubset := new real[|index|, x.Length1]((_, _) => 0.0);
    for k := 0 to |index|
      invariant forall l | 0 <= l < k :: index[l] < x.Length0
      invariant forall l, j | 0 <= l < k && 0 <= j < x.Length1 :: xsubset[l, j] == x[index[l], j]
    {
      var row := index[k];
      if row >= x.Length0 {
        FirstMatchPastEnd(y, ycondition, x.Length0, k);
        return Err(RowOutOfBounds(row));
      }
      AssignRow(xsubset, k, x, row);
    }
    AllMatchesWithin(y, ycondition, x.Length0);
    RowsGathered(xsubset, x, index);
    return Ok(xsubset);
  }
}
