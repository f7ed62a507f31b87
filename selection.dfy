/**
 * Choosing the best-fitting ideal function for each training column
 * (run_assignment in mains.py, the loop over y1..y4 and, inside it, the scan of
 * the ideal columns y1..y50).
 */
module Selection {
  import opened Wrappers
  import opened Processors
  import opened Tables

  /**
   * The SSE between training column y<i> and ideal column y<j>: never negative,
   * and zero for an ideal column that reproduces the training column row by row.
   */
  function ColumnSse(train: seq<Row>, ideal: seq<Row>, i: nat, j: nat): (sse: real)
    requires Aligned(train, ideal)
    requires 1 <= i <= TrainingColumns && 1 <= j <= IdealColumns
    ensures sse >= 0.0
    ensures (forall k | 0 <= k < |train| :: train[k].ys[i - 1] == ideal[k].ys[j - 1]) ==> sse == 0.0
  {
    var a, b := Column(train, TrainingColumns, i), Column(ideal, IdealColumns, j);
    if a == b then
      SseSelf(a);
      Sse(a, b)
    else
      Sse(a, b)
  }

  /**
   * Ideal column y<j> is the best fit of training column y<i>: no ideal column
   * has a smaller SSE, and every lower-numbered column has a strictly larger one,
   * so on a tie the lowest-numbered minimiser is the best fit.
   */
  ghost predicate IsBestFit(train: seq<Row>, ideal: seq<Row>, i: nat, j: nat)
    requires Aligned(train, ideal) && 1 <= i <= TrainingColumns
  {
    && 1 <= j <= IdealColumns
    && (forall c | 1 <= c <= IdealColumns :: ColumnSse(train, ideal, i, j) <= ColumnSse(train, ideal, i, c))
    && (forall c | 1 <= c < j :: ColumnSse(train, ideal, i, c) > ColumnSse(train, ideal, i, j))
  }

  /** At most one ideal column is the best fit of a training column. */
  lemma BestFitUnique(train: seq<Row>, ideal: seq<Row>, i: nat, j1: nat, j2: nat)
    requires Aligned(train, ideal) && 1 <= i <= TrainingColumns
    requires IsBestFit(train, ideal, i, j1) && IsBestFit(train, ideal, i, j2)
    ensures j1 == j2
  {
    var sse1, sse2 := ColumnSse(train, ideal, i, j1), ColumnSse(train, ideal, i, j2);
    assert sse1 == sse2;
  }

  /**
   * The inner scan: ideal columns y1..y50 in order, replacing the current best
   * only on a strictly smaller SSE. min_sse starts at infinity (None here) and
   * best_fit_name at None.
   */
  method BestFit(train: seq<Row>, ideal: seq<Row>, i: nat) returns (best: nat)
    requires Aligned(train, ideal) && 1 <= i <= TrainingColumns
    ensures IsBestFit(train, ideal, i, best)
  {
    var minSse: Option<real> := None;
    var bestFitName: Option<nat> := None;
    for j := 1 to IdealColumns + 1
      invariant minSse.None? <==> j == 1
      invariant bestFitName.None? <==> j == 1
      invariant j > 1 ==> 1 <= bestFitName.value < j
      invariant j > 1 ==> minSse.value == ColumnSse(train, ideal, i, bestFitName.value)
      invariant j > 1 ==> forall c | 1 <= c < j :: minSse.value <= ColumnSse(train, ideal, i, c)
      invariant j > 1 ==> forall c | 1 <= c < bestFitName.value :: ColumnSse(train, ideal, i, c) > minSse.value
    {
      var sse := ColumnSse(train, ideal, i, j);
      if minSse.None? || sse < minSse.value {
        minSse := Some(sse);
        bestFitName := Some(j);
      }
    }
    best := bestFitName.value;
  }

  /**
   * The outer loop: one selection per training column y1..y4, in that order.
   * selected[i - 1] is the number of the ideal column chosen for y<i>
   * (selected_ideals['y<i>'] in the source).
   */
  method SelectIdeals(train: seq<Row>, ideal: seq<Row>) returns (selected: seq<nat>)
    requires Aligned(train, ideal)
    ensures |selected| == TrainingColumns
    ensures forall i | 0 <= i < TrainingColumns :: IsBestFit(train, ideal, i + 1, selected[i])
  {
    selected := [];
    for i := 1 to TrainingColumns + 1
      invariant |selected| == i - 1
      invariant forall t | 0 <= t < i - 1 :: IsBestFit(train, ideal, t + 1, selected[t])
    {
      var best := BestFit(train, ideal, i);
      selected := selected + [best];
    }
  }

  /** A selection as SelectIdeals produces it. */
  ghost predicate IsSelection(train: seq<Row>, ideal: seq<Row>, selected: seq<nat>)
    requires Aligned(train, ideal)
  {
    |selected| == TrainingColumns &&
    forall i | 0 <= i < TrainingColumns :: IsBestFit(train, ideal, i + 1, selected[i])
  }

  /**
   * The selection is determined by the tables: two selections of the same tables
   * agree, and every chosen column number lies in 1..50.
   */
  lemma SelectionDetermined(train: seq<Row>, ideal: seq<Row>, s1: seq<nat>, s2: seq<nat>)
    requires Aligned(train, ideal)
    requires IsSelection(train, ideal, s1) && IsSelection(train, ideal, s2)
    ensures s1 == s2
    ensures forall i | 0 <= i < |s1| :: 1 <= s1[i] <= IdealColumns
  {
    forall i | 0 <= i < TrainingColumns ensures s1[i] == s2[i] {
      BestFitUnique(train, ideal, i + 1, s1[i], s2[i]);
    }
  }
}
