/**
 * The tables the matcher reads, as the ingestion layer hands them over: the
 * training table (columns x, y1..y4) and the ideal table (columns x, y1..y50),
 * one Row per CSV line. Columns are numbered from 1, as in the names y1..y50.
 */
module Tables {

  datatype Row = Row(x: real, ys: seq<real>)

  const TrainingColumns: nat := 4
  const IdealColumns: nat := 50

  /** Every row carries exactly `width` y-values. */
  predicate Rectangular(rows: seq<Row>, width: nat)
  {
    forall k | 0 <= k < |rows| :: |rows[k].ys| == width
  }

  /**
   * The training and ideal tables a run works on: the right widths, and the
   * same number of rows, so that pandas aligns the series row by row.
   */
  predicate Aligned(train: seq<Row>, ideal: seq<Row>)
  {
    Rectangular(train, TrainingColumns) && Rectangular(ideal, IdealColumns) && |train| == |ideal|
  }

  /** The series of column y<n> (df['y<n>']), top to bottom. */
  function Column(rows: seq<Row>, width: nat, n: nat): (c: seq<real>)
    requires Rectangular(rows, width) && 1 <= n <= width
    ensures |c| == |rows|
    ensures forall k | 0 <= k < |rows| :: c[k] == rows[k].ys[n - 1]
  {
    seq(|rows|, k requires 0 <= k < |rows| => rows[k].ys[n - 1])
  }
}
