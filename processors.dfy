/**
 * The error metric and the admissibility threshold of the curve matcher
 * (MathEngine in processors.py). Values are mathematical reals: floating-point
 * rounding is not modelled.
 *
 * The threshold factor is np.sqrt(2), a binary64 value; Sqrt2 below is that
 * value written out exactly, so the threshold is a linear function of the
 * largest absolute difference (lemma Sqrt2Approximation says how close it is
 * to the mathematical square root of 2).
 */
module Processors {

  function Abs(v: real): (r: real)
    ensures r >= 0.0
    ensures r == v || r == -v
  {
    if v < 0.0 then -v else v
  }

  function Sq(v: real): (r: real)
    ensures r >= 0.0
  {
    v * v
  }

  function Max(a: real, b: real): (r: real)
    ensures r >= a && r >= b
    ensures r == a || r == b
  {
    if a < b then b else a
  }

  /** calculate_least_squares: the sum over i of (a[i] - b[i])^2. */
  function Sse(a: seq<real>, b: seq<real>): (r: real)
    requires |a| == |b|
    ensures r >= 0.0
    decreases |a|
  {
    if |a| == 0 then 0.0 else Sq(a[0] - b[0]) + Sse(a[1..], b[1..])
  }

  /** The SSE of a series with itself is zero. */
  lemma {:induction false} SseSelf(a: seq<real>)
    ensures Sse(a, a) == 0.0
    decreases |a|
  {
    if |a| > 0 {
      SseSelf(a[1..]);
    }
  }

  /** The SSE does not depend on the order of its two arguments. */
  lemma {:induction false} SseSymmetric(a: seq<real>, b: seq<real>)
    requires |a| == |b|
    ensures Sse(a, b) == Sse(b, a)
    decreases |a|
  {
    if |a| > 0 {
      SseSymmetric(a[1..], b[1..]);
      assert Sq(a[0] - b[0]) == Sq(b[0] - a[0]);
    }
  }

  /**
   * The SSE accumulates left to right: appending one aligned pair adds exactly
   * that pair's squared difference.
   */
  lemma {:induction false} SseAppend(a: seq<real>, b: seq<real>, x: real, y: real)
    requires |a| == |b|
    ensures Sse(a + [x], b + [y]) == Sse(a, b) + Sq(x - y)
    decreases |a|
  {
    if |a| == 0 {
      assert a + [x] == [x] && b + [y] == [y];
    } else {
      assert (a + [x])[1..] == a[1..] + [x];
      assert (b + [y])[1..] == b[1..] + [y];
      SseAppend(a[1..], b[1..], x, y);
    }
  }

  /** np.max(np.abs(a - b)): the largest absolute pointwise difference. */
  function MaxAbsDiff(a: seq<real>, b: seq<real>): (m: real)
    requires |a| == |b| > 0
    ensures m >= 0.0
    decreases |a|
  {
    if |a| == 1 then Abs(a[0] - b[0]) else Max(Abs(a[0] - b[0]), MaxAbsDiff(a[1..], b[1..]))
  }

  /** MaxAbsDiff bounds every absolute pointwise difference and equals one of them. */
  lemma {:induction false} MaxAbsDiffIsMaximum(a: seq<real>, b: seq<real>)
    requires |a| == |b| > 0
    ensures forall i | 0 <= i < |a| :: Abs(a[i] - b[i]) <= MaxAbsDiff(a, b)
    ensures exists i | 0 <= i < |a| :: Abs(a[i] - b[i]) == MaxAbsDiff(a, b)
    decreases |a|
  {
    if |a| > 1 {
      MaxAbsDiffIsMaximum(a[1..], b[1..]);
      assert forall i | 1 <= i < |a| :: a[i] == a[1..][i - 1] && b[i] == b[1..][i - 1];
      var j :| 0 <= j < |a| - 1 && Abs(a[1..][j] - b[1..][j]) == MaxAbsDiff(a[1..], b[1..]);
      if Abs(a[0] - b[0]) < MaxAbsDiff(a[1..], b[1..]) {
        assert Abs(a[j + 1] - b[j + 1]) == MaxAbsDiff(a, b);
      }
    }
  }

  /** np.sqrt(2): the binary64 number nearest to the square root of 2, written out exactly. */
  const Sqrt2: real := 1.4142135623730951454746218587388284504413604736328125

  /** Sqrt2 squares to 2 within 3e-16 and lies strictly between 1 and 2. */
  lemma Sqrt2Approximation()
    ensures 1.0 < Sqrt2 < 2.0
    ensures -0.0000000000000003 < Sqrt2 * Sqrt2 - 2.0 < 0.0000000000000003
  {
  }

  /** get_threshold: max |a[i] - b[i]| * sqrt(2). Undefined on empty series, where np.max of an empty array raises. */
  function Threshold(a: seq<real>, b: seq<real>): (t: real)
    requires |a| == |b| > 0
    ensures t >= MaxAbsDiff(a, b) >= 0.0
  {
    MaxAbsDiff(a, b) * Sqrt2
  }

  /**
   * The threshold is sqrt(2) times the largest pointwise deviation: no pointwise
   * deviation scaled by sqrt(2) exceeds it and one reaches it. In particular
   * every pointwise deviation lies within the threshold, the threshold is
   * non-negative, and it is zero exactly when the two series agree everywhere.
   */
  lemma ThresholdIsScaledMaximum(a: seq<real>, b: seq<real>)
    requires |a| == |b| > 0
    ensures forall i | 0 <= i < |a| :: Abs(a[i] - b[i]) * Sqrt2 <= Threshold(a, b)
    ensures exists i | 0 <= i < |a| :: Abs(a[i] - b[i]) * Sqrt2 == Threshold(a, b)
    ensures forall i | 0 <= i < |a| :: Abs(a[i] - b[i]) <= Threshold(a, b)
    ensures Threshold(a, b) >= 0.0
    ensures Threshold(a, b) == 0.0 <==> a == b
  {
    MaxAbsDiffIsMaximum(a, b);
    var m := MaxAbsDiff(a, b);
    if m == 0.0 {
      assert forall i | 0 <= i < |a| :: a[i] == b[i];
    }
    var i :| 0 <= i < |a| && Abs(a[i] - b[i]) == m;
    assert Abs(a[i] - b[i]) * Sqrt2 == Threshold(a, b);
  }

  /** The unit test's case: one pair whose difference is 2.0 gives 2 * sqrt(2). */
  lemma ThresholdOfSinglePair()
    ensures Threshold([2.0], [0.0]) == 2.0 * Sqrt2
  {
  }
}
