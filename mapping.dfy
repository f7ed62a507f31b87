/**
 * Mapping the test points onto the selected ideal functions (run_assignment in
 * mains.py, the loop over the rows of the test table and, inside it, the loop
 * over the four selections).
 */
module Mapping {
  import opened Wrappers
  import opened Processors
  import opened Tables
  import opened Selection

  /** One row of the test table. */
  datatype TestPoint = TestPoint(x: real, y: real)

  /** One entry of test_results_list: {x, y, delta_y, ideal_function_no}. */
  datatype MatchRecord = MatchRecord(x: real, y: real, deltaY: real, idealFunctionNo: nat)

  /**
   * A test x that no row of the ideal table carries: `.values[0]` raises, and
   * run_assignment turns that into a DataValidationError that ends the run.
   */
  datatype MapError = UnknownX(x: real)

  /**
   * ideal_df.loc[ideal_df['x'] == x, ...].values[0]: the first row whose x equals
   * the given x exactly, or None when there is no such row.
   */
  function FirstRowAt(rows: seq<Row>, x: real): (r: Option<nat>)
    ensures r.Some? ==> r.value < |rows| && rows[r.value].x == x
    ensures r.Some? ==> forall k | 0 <= k < r.value :: rows[k].x != x
    ensures r.None? <==> forall k | 0 <= k < |rows| :: rows[k].x != x
    decreases |rows|
  {
    if |rows| == 0 then None
    else if rows[0].x == x then Some(0)
    else
      match FirstRowAt(rows[1..], x)
      case None => None
      case Some(k) => Some(k + 1)
  }

  /** Four selections (one per training column), each an ideal column number in 1..50. */
  predicate WellFormedSelection(selected: seq<nat>)
  {
    |selected| == TrainingColumns &&
    forall s | 0 <= s < |selected| :: 1 <= selected[s] <= IdealColumns
  }

  /** |y - ideal_y| for selection s (0-based, training column y<s + 1>) at ideal row k. */
  function Deviation(ideal: seq<Row>, selected: seq<nat>, s: nat, k: nat, y: real): (d: real)
    requires Rectangular(ideal, IdealColumns) && WellFormedSelection(selected)
    requires s < |selected| && k < |ideal|
    ensures d >= 0.0
    ensures d == y - ideal[k].ys[selected[s] - 1] || d == ideal[k].ys[selected[s] - 1] - y
  {
    Abs(y - ideal[k].ys[selected[s] - 1])
  }

  /** get_threshold(train_df['y<s + 1>'], ideal_df[selected ideal column]). */
  function SelectionThreshold(train: seq<Row>, ideal: seq<Row>, selected: seq<nat>, s: nat): (t: real)
    requires Aligned(train, ideal) && WellFormedSelection(selected) && s < |selected| && |ideal| > 0
    ensures t >= 0.0
  {
    Threshold(Column(train, TrainingColumns, s + 1), Column(ideal, IdealColumns, selected[s]))
  }

  /** What the scan sees of one selection at one test point. */
  datatype Candidate = Candidate(deviation: real, threshold: real, idealFunctionNo: nat)

  /**
   * `deviation <= threshold`: a selection qualifies when its deviation is within
   * its threshold, the boundary included.
   */
  predicate Qualifies(c: Candidate): (q: bool)
    ensures c.deviation == c.threshold ==> q
    ensures q ==> c.deviation <= c.threshold
  {
    c.deviation <= c.threshold
  }

  /** The candidates of a test point at ideal row k with value y, in y1..y4 order. */
  function Candidates(train: seq<Row>, ideal: seq<Row>, selected: seq<nat>, k: nat, y: real): (cs: seq<Candidate>)
    requires Aligned(train, ideal) && WellFormedSelection(selected) && k < |ideal|
    ensures |cs| == |selected|
  {
    seq(|selected|, s requires 0 <= s < |selected| =>
      Candidate(Deviation(ideal, selected, s, k, y), SelectionThreshold(train, ideal, selected, s), selected[s]))
  }

  /**
   * Among the first n candidates, s qualifies with the smallest deviation of all
   * qualifying ones, and every qualifying candidate before s has a strictly
   * larger deviation (the earliest one wins a tie).
   */
  ghost predicate IsBestAmong(cs: seq<Candidate>, n: nat, s: nat)
    requires n <= |cs|
  {
    && s < n
    && Qualifies(cs[s])
    && (forall t | 0 <= t < n && Qualifies(cs[t]) :: cs[s].deviation <= cs[t].deviation)
    && (forall t | 0 <= t < s && Qualifies(cs[t]) :: cs[t].deviation > cs[s].deviation)
  }

  /** At most one candidate is the best one. */
  lemma BestUnique(cs: seq<Candidate>, n: nat, s1: nat, s2: nat)
    requires n <= |cs|
    requires IsBestAmong(cs, n, s1) && IsBestAmong(cs, n, s2)
    ensures s1 == s2
  {
  }

  /** Whenever some candidate qualifies, one of them is the best. */
  lemma {:induction false} BestAmongExists(cs: seq<Candidate>, n: nat)
    requires n <= |cs|
    requires exists t | 0 <= t < n :: Qualifies(cs[t])
    ensures exists s: nat :: IsBestAmong(cs, n, s)
    decreases n
  {
    var last := n - 1;
    if exists t | 0 <= t < last :: Qualifies(cs[t]) {
      BestAmongExists(cs, last);
      var s: nat :| IsBestAmong(cs, last, s);
      if Qualifies(cs[last]) && cs[last].deviation < cs[s].deviation {
        assert IsBestAmong(cs, n, last);
      } else {
        assert IsBestAmong(cs, n, s);
      }
    } else {
      assert IsBestAmong(cs, n, last);
    }
  }

  /** Every test x has a row in the ideal table. */
  predicate AllKnown(ideal: seq<Row>, tests: seq<TestPoint>)
  {
    forall i | 0 <= i < |tests| :: FirstRowAt(ideal, tests[i].x).Some?
  }

  /** The best qualifying candidate, or None when no candidate qualifies. */
  ghost function BestCandidate(cs: seq<Candidate>): (r: Option<nat>)
    ensures r.None? <==> forall t | 0 <= t < |cs| :: !Qualifies(cs[t])
    ensures r.Some? ==> IsBestAmong(cs, |cs|, r.value)
  {
    if exists t | 0 <= t < |cs| :: Qualifies(cs[t]) then
      BestAmongExists(cs, |cs|);
      var s: nat :| IsBestAmong(cs, |cs|, s);
      Some(s)
    else
      None
  }

  /**
   * What one iteration of the row loop appends: the record of the best qualifying
   * candidate, or nothing when no candidate qualifies.
   */
  ghost function PointOutcome(train: seq<Row>, ideal: seq<Row>, selected: seq<nat>, p: TestPoint): (r: Option<MatchRecord>)
    requires Aligned(train, ideal) && WellFormedSelection(selected)
    requires FirstRowAt(ideal, p.x).Some?
    ensures r.Some? ==> r.value.x == p.x && r.value.y == p.y
    ensures r.Some? ==> 0.0 <= r.value.deltaY && r.value.idealFunctionNo in selected
  {
    var cs := Candidates(train, ideal, selected, FirstRowAt(ideal, p.x).value, p.y);
    match BestCandidate(cs)
    case None => None
    case Some(s) => Some(MatchRecord(p.x, p.y, cs[s].deviation, cs[s].idealFunctionNo))
  }

  /**
   * PointOutcome from the other side: no record exactly when no candidate
   * qualifies, and the best candidate, whichever index it has, is the record.
   */
  lemma PointOutcomeOfBest(train: seq<Row>, ideal: seq<Row>, selected: seq<nat>, p: TestPoint, best: nat)
    requires Aligned(train, ideal) && WellFormedSelection(selected)
    requires FirstRowAt(ideal, p.x).Some?
    requires IsBestAmong(Candidates(train, ideal, selected, FirstRowAt(ideal, p.x).value, p.y), |selected|, best)
    ensures var cs := Candidates(train, ideal, selected, FirstRowAt(ideal, p.x).value, p.y);
      PointOutcome(train, ideal, selected, p) == Some(MatchRecord(p.x, p.y, cs[best].deviation, cs[best].idealFunctionNo))
  {
  }

  /**
   * What a recorded match means: its delta_y is |y - ideal_y| for the first
   * selection, in y1..y4 order, that attains the minimum deviation over the
   * qualifying selections; it is non-negative and within that selection's
   * threshold, and the record names that selection's ideal function.
   */
  lemma RecordedMatch(train: seq<Row>, ideal: seq<Row>, selected: seq<nat>, p: TestPoint)
    requires Aligned(train, ideal) && WellFormedSelection(selected)
    requires FirstRowAt(ideal, p.x).Some? && PointOutcome(train, ideal, selected, p).Some?
    ensures var k, m := FirstRowAt(ideal, p.x).value, PointOutcome(train, ideal, selected, p).value;
      && m.x == p.x && m.y == p.y
      && 0.0 <= m.deltaY
      && 1 <= m.idealFunctionNo <= IdealColumns
      && exists s | 0 <= s < |selected| ::
           && m.idealFunctionNo == selected[s]
           && m.deltaY == Deviation(ideal, selected, s, k, p.y)
           && m.deltaY <= SelectionThreshold(train, ideal, selected, s)
           && (forall t | 0 <= t < |selected| && Deviation(ideal, selected, t, k, p.y) <= SelectionThreshold(train, ideal, selected, t) ::
                 m.deltaY <= Deviation(ideal, selected, t, k, p.y))
           && (forall t | 0 <= t < s && Deviation(ideal, selected, t, k, p.y) <= SelectionThreshold(train, ideal, selected, t) ::
                 m.deltaY < Deviation(ideal, selected, t, k, p.y))
  {
    var k, m := FirstRowAt(ideal, p.x).value, PointOutcome(train, ideal, selected, p).value;
    var cs := Candidates(train, ideal, selected, k, p.y);
    var s := BestCandidate(cs).value;
    forall t | 0 <= t < |selected|
      ensures cs[t] == Candidate(Deviation(ideal, selected, t, k, p.y), SelectionThreshold(train, ideal, selected, t), selected[t])
    {
    }
    assert 0 <= s < |selected| && m.idealFunctionNo == selected[s] && m.deltaY == Deviation(ideal, selected, s, k, p.y);
  }

  /**
   * A test point gets no record exactly when its deviation exceeds the threshold
   * of every one of the four selections.
   */
  lemma UnmatchedPoint(train: seq<Row>, ideal: seq<Row>, selected: seq<nat>, p: TestPoint)
    requires Aligned(train, ideal) && WellFormedSelection(selected)
    requires FirstRowAt(ideal, p.x).Some?
    ensures var k := FirstRowAt(ideal, p.x).value;
      PointOutcome(train, ideal, selected, p).None? <==>
        forall s | 0 <= s < |selected| ::
          Deviation(ideal, selected, s, k, p.y) > SelectionThreshold(train, ideal, selected, s)
  {
    var k := FirstRowAt(ideal, p.x).value;
    var cs := Candidates(train, ideal, selected, k, p.y);
    forall t | 0 <= t < |selected|
      ensures cs[t] == Candidate(Deviation(ideal, selected, t, k, p.y), SelectionThreshold(train, ideal, selected, t), selected[t])
    {
    }
  }

  /** The records of one test point, as a sequence of length 0 or 1. */
  ghost function Recorded(train: seq<Row>, ideal: seq<Row>, selected: seq<nat>, p: TestPoint): (r: seq<MatchRecord>)
    requires Aligned(train, ideal) && WellFormedSelection(selected)
    requires FirstRowAt(ideal, p.x).Some?
    ensures |r| <= 1
    ensures forall m | m in r :: m.x == p.x && m.y == p.y && 0.0 <= m.deltaY && m.idealFunctionNo in selected
  {
    match PointOutcome(train, ideal, selected, p)
    case None => []
    case Some(m) => [m]
  }

  /** test_results_list after the row loop has run over `tests`. */
  ghost function Mapped(train: seq<Row>, ideal: seq<Row>, selected: seq<nat>, tests: seq<TestPoint>): (r: seq<MatchRecord>)
    requires Aligned(train, ideal) && WellFormedSelection(selected) && AllKnown(ideal, tests)
    ensures |r| <= |tests|
    ensures forall m | m in r :: 0.0 <= m.deltaY && m.idealFunctionNo in selected
    decreases |tests|
  {
    if |tests| == 0 then []
    else
      assert AllKnown(ideal, tests[1..]) by {
        assert forall i | 0 <= i < |tests| - 1 :: tests[1..][i] == tests[i + 1];
      }
      Recorded(train, ideal, selected, tests[0]) + Mapped(train, ideal, selected, tests[1..])
  }

  /**
   * The records of a concatenation are the records of its parts, in order: each
   * test point contributes on its own, independently of the others, and the
   * output keeps the order of the test table.
   */
  lemma {:induction false} MappedConcat(train: seq<Row>, ideal: seq<Row>, selected: seq<nat>, a: seq<TestPoint>, b: seq<TestPoint>)
    requires Aligned(train, ideal) && WellFormedSelection(selected)
    requires AllKnown(ideal, a) && AllKnown(ideal, b)
    ensures AllKnown(ideal, a + b)
    ensures Mapped(train, ideal, selected, a + b) == Mapped(train, ideal, selected, a) + Mapped(train, ideal, selected, b)
    decreases |a|
  {
    assert forall i | 0 <= i < |a + b| :: (a + b)[i] == if i < |a| then a[i] else b[i - |a|];
    if |a| > 0 {
      assert (a + b)[1..] == a[1..] + b;
      assert AllKnown(ideal, a[1..]) by {
        assert forall i | 0 <= i < |a| - 1 :: a[1..][i] == a[i + 1];
      }
      MappedConcat(train, ideal, selected, a[1..], b);
    } else {
      assert a + b == b;
    }
  }

  /**
   * There are at most as many records as test points, and every record is the
   * match of some test point of the input.
   */
  lemma {:induction false} MappedRecordsFromPoints(train: seq<Row>, ideal: seq<Row>, selected: seq<nat>, tests: seq<TestPoint>)
    requires Aligned(train, ideal) && WellFormedSelection(selected) && AllKnown(ideal, tests)
    ensures |Mapped(train, ideal, selected, tests)| <= |tests|
    ensures forall m | m in Mapped(train, ideal, selected, tests) ::
      exists i | 0 <= i < |tests| :: PointOutcome(train, ideal, selected, tests[i]) == Some(m)
    decreases |tests|
  {
    if |tests| > 0 {
      assert AllKnown(ideal, tests[1..]) by {
        assert forall i | 0 <= i < |tests| - 1 :: tests[1..][i] == tests[i + 1];
      }
      MappedRecordsFromPoints(train, ideal, selected, tests[1..]);
      forall m | m in Mapped(train, ideal, selected, tests)
        ensures exists i | 0 <= i < |tests| :: PointOutcome(train, ideal, selected, tests[i]) == Some(m)
      {
        if m in Recorded(train, ideal, selected, tests[0]) {
          assert PointOutcome(train, ideal, selected, tests[0]) == Some(m);
        } else {
          var i :| 0 <= i < |tests| - 1 && PointOutcome(train, ideal, selected, tests[1..][i]) == Some(m);
          assert tests[1..][i] == tests[i + 1];
        }
      }
    }
  }

  /** The candidate of selection s: its deviation, its threshold and its ideal function number. */
  lemma CandidateAt(train: seq<Row>, ideal: seq<Row>, selected: seq<nat>, k: nat, y: real, s: nat)
    requires Aligned(train, ideal) && WellFormedSelection(selected) && k < |ideal| && s < |selected|
    ensures Candidates(train, ideal, selected, k, y)[s]
      == Candidate(Abs(y - ideal[k].ys[selected[s] - 1]), SelectionThreshold(train, ideal, selected, s), selected[s])
  {
  }

  /**
   * One step of the scan: looking at candidate s keeps "none of the first s
   * qualifies" or "b is the best of the first s" true for s + 1, replacing the
   * best only by a qualifying candidate with a strictly smaller deviation.
   */
  lemma ScanStep(cs: seq<Candidate>, s: nat, b: nat)
    requires s < |cs|
    ensures (forall t | 0 <= t < s :: !Qualifies(cs[t])) && Qualifies(cs[s]) ==> IsBestAmong(cs, s + 1, s)
    ensures (forall t | 0 <= t < s :: !Qualifies(cs[t])) && !Qualifies(cs[s]) ==>
      forall t | 0 <= t < s + 1 :: !Qualifies(cs[t])
    ensures IsBestAmong(cs, s, b) && Qualifies(cs[s]) && cs[s].deviation < cs[b].deviation ==>
      IsBestAmong(cs, s + 1, s)
    ensures IsBestAmong(cs, s, b) && !(Qualifies(cs[s]) && cs[s].deviation < cs[b].deviation) ==>
      IsBestAmong(cs, s + 1, b)
  {
  }

  /**
   * One iteration of the row loop: scan the four selections in y1..y4 order,
   * look up the ideal value at the point's x, keep the qualifying selection with
   * the strictly smallest deviation. min_deviation starts at infinity (None here).
   */
  method MapPoint(train: seq<Row>, ideal: seq<Row>, selected: seq<nat>, p: TestPoint)
    returns (r: Result<Option<MatchRecord>, MapError>)
    requires Aligned(train, ideal) && WellFormedSelection(selected)
    ensures r.Failure? <==> FirstRowAt(ideal, p.x).None?
    ensures r.Failure? ==> r.error == UnknownX(p.x)
    ensures r.Success? ==> r.value == PointOutcome(train, ideal, selected, p)
  {
    var bestMap: Option<nat> := None;
    var minDeviation: Option<real> := None;
    ghost var best: nat := 0;
    ghost var cs: seq<Candidate> := [];
    for s := 0 to |selected|
      invariant s > 0 ==> FirstRowAt(ideal, p.x).Some?
      invariant s > 0 ==> cs == Candidates(train, ideal, selected, FirstRowAt(ideal, p.x).value, p.y)
      invariant bestMap.None? <==> minDeviation.None?
      invariant bestMap.None? ==> forall t | 0 <= t < s :: !Qualifies(cs[t])
      invariant bestMap.Some? ==> s > 0 && |cs| == |selected| && IsBestAmong(cs, s, best)
      invariant bestMap.Some? ==> minDeviation.value == cs[best].deviation && bestMap.value == cs[best].idealFunctionNo
    {
      var row := FirstRowAt(ideal, p.x);
      if row.None? {
        return Failure(UnknownX(p.x));
      }
      cs := Candidates(train, ideal, selected, row.value, p.y);
      var idealY := ideal[row.value].ys[selected[s] - 1];
      var deviation := Abs(p.y - idealY);
      var threshold := SelectionThreshold(train, ideal, selected, s);
      CandidateAt(train, ideal, selected, row.value, p.y, s);
      ScanStep(cs, s, best);
      if deviation <= threshold {
        if minDeviation.None? || deviation < minDeviation.value {
          minDeviation := Some(deviation);
          bestMap := Some(selected[s]);
          best := s;
        }
      }
    }
    if bestMap.Some? {
      r := Success(Some(MatchRecord(p.x, p.y, minDeviation.value, bestMap.value)));
      PointOutcomeOfBest(train, ideal, selected, p, best);
    } else {
      r := Success(None);
    }
  }

  /** Mapping one more known test point appends that point's records. */
  lemma MappedSnoc(train: seq<Row>, ideal: seq<Row>, selected: seq<nat>, tests: seq<TestPoint>, p: TestPoint)
    requires Aligned(train, ideal) && WellFormedSelection(selected)
    requires AllKnown(ideal, tests) && FirstRowAt(ideal, p.x).Some?
    ensures AllKnown(ideal, tests + [p])
    ensures Mapped(train, ideal, selected, tests + [p])
      == Mapped(train, ideal, selected, tests) + Recorded(train, ideal, selected, p)
  {
    assert AllKnown(ideal, [p]);
    MappedConcat(train, ideal, selected, tests, [p]);
    assert [p][1..] == [];
  }

  /** The records of the first i + 1 test points extend those of the first i by the records of point i. */
  lemma MappedPrefix(train: seq<Row>, ideal: seq<Row>, selected: seq<nat>, tests: seq<TestPoint>, i: nat)
    requires Aligned(train, ideal) && WellFormedSelection(selected)
    requires i < |tests| && AllKnown(ideal, tests[..i]) && FirstRowAt(ideal, tests[i].x).Some?
    ensures AllKnown(ideal, tests[..i + 1])
    ensures Mapped(train, ideal, selected, tests[..i + 1])
      == Mapped(train, ideal, selected, tests[..i]) + Recorded(train, ideal, selected, tests[i])
  {
    assert tests[..i + 1] == tests[..i] + [tests[i]];
    MappedSnoc(train, ideal, selected, tests[..i], tests[i]);
  }

  /**
   * The row loop: map every test point in order, appending its record when some
   * selection qualifies; the first test x missing from the ideal table ends the
   * run with an error.
   */
  method MapTestPoints(train: seq<Row>, ideal: seq<Row>, selected: seq<nat>, tests: seq<TestPoint>)
    returns (res: Result<seq<MatchRecord>, MapError>)
    requires Aligned(train, ideal) && WellFormedSelection(selected)
    ensures res.Success? <==> AllKnown(ideal, tests)
    ensures res.Success? ==> res.value == Mapped(train, ideal, selected, tests)
    ensures res.Failure? ==> exists i | 0 <= i < |tests| ::
      && AllKnown(ideal, tests[..i])
      && FirstRowAt(ideal, tests[i].x).None?
      && res.error == UnknownX(tests[i].x)
  {
    var testResults: seq<MatchRecord> := [];
    for i := 0 to |tests|
      invariant AllKnown(ideal, tests[..i])
      invariant testResults == Mapped(train, ideal, selected, tests[..i])
    {
      var r := MapPoint(train, ideal, selected, tests[i]);
      if r.Failure? {
        assert !AllKnown(ideal, tests) by {
          assert FirstRowAt(ideal, tests[i].x).None?;
        }
        return Failure(r.error);
      }
      MappedPrefix(train, ideal, selected, tests, i);
      if r.value.Some? {
        testResults := testResults + [r.value.value];
      }
    }
    assert tests[..|tests|] == tests;
    res := Success(testResults);
  }

  /**
   * run_assignment without its I/O: select the best fit for each training
   * column, then map the test points against the four selections.
   */
  method RunAssignment(train: seq<Row>, ideal: seq<Row>, tests: seq<TestPoint>)
    returns (selected: seq<nat>, res: Result<seq<MatchRecord>, MapError>)
    requires Aligned(train, ideal)
    ensures IsSelection(train, ideal, selected) && WellFormedSelection(selected)
    ensures res.Success? <==> AllKnown(ideal, tests)
    ensures res.Success? ==> res.value == Mapped(train, ideal, selected, tests)
  {
    selected := SelectIdeals(train, ideal);
    res := MapTestPoints(train, ideal, selected, tests);
  }
}
