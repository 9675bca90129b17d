/** Per-column peak bracketing of the diffuse-constraint resampler: for one
    column `v` of integrand values (one entry per abundance grid point) choose
    the grid indices of the lower bound, the peak and the upper bound of the
    region where the integrand is not negligible. */
module PeakBracket {
  import opened Reductions

  /** numpy's `sign`. */
  function Sign(x: real): (s: int)
    ensures s == 1 <==> x > 0.0
    ensures s == -1 <==> x < 0.0
    ensures s == 0 <==> x == 0.0
  {
    if x > 0.0 then 1 else if x < 0.0 then -1 else 0
  }

  /** The negligibility threshold: `frac` times the column maximum. With
      0 <= frac <= 1 and a non-negative maximum it lies between 0 and the
      maximum, so the peak itself is never below it. */
  function Threshold(v: seq<real>, frac: real): (t: real)
    requires |v| > 0
    ensures 0.0 <= frac <= 1.0 && Max(v) >= 0.0 ==> 0.0 <= t <= Max(v)
  {
    var m := Max(v);
    if 0.0 <= frac <= 1.0 && m >= 0.0 then ScaledBelow(frac, m); frac * m
    else frac * m
  }

  /** The column rises across `t` between samples `i` and `i + 1`. */
  predicate RisesAt(v: seq<real>, t: real, i: nat)
    requires i + 1 < |v|
  {
    (v[i] < t && t <= v[i + 1]) || (v[i] == t && t < v[i + 1])
  }

  /** The column falls across `t` between samples `i` and `i + 1`. */
  predicate FallsAt(v: seq<real>, t: real, i: nat)
    requires i + 1 < |v|
  {
    (v[i] > t && t >= v[i + 1]) || (v[i] == t && t > v[i + 1])
  }

  /** The crossing indicator `d`: for each adjacent pair, the sign of
      `t - v[i]` minus the sign of `t - v[i + 1]`. */
  function Crossings(v: seq<real>, t: real): (d: seq<int>)
    ensures |d| == if |v| == 0 then 0 else |v| - 1
    ensures forall i :: 0 <= i < |d| ==> -2 <= d[i] <= 2
    ensures forall i :: 0 <= i < |d| ==> (d[i] > 0 <==> RisesAt(v, t, i))
    ensures forall i :: 0 <= i < |d| ==> (d[i] < 0 <==> FallsAt(v, t, i))
  {
    if |v| == 0 then []
    else seq(|v| - 1, i requires 0 <= i < |v| - 1 => Sign(t - v[i]) - Sign(t - v[i + 1]))
  }

  /** The mask `d > 0`. */
  function Rising(d: seq<int>): (b: seq<bool>)
    ensures |b| == |d|
    ensures forall i :: 0 <= i < |d| ==> (b[i] <==> d[i] > 0)
  {
    seq(|d|, i requires 0 <= i < |d| => d[i] > 0)
  }

  /** The mask `d < 0`. */
  function Falling(d: seq<int>): (b: seq<bool>)
    ensures |b| == |d|
    ensures forall i :: 0 <= i < |d| ==> (b[i] <==> d[i] < 0)
  {
    seq(|d|, i requires 0 <= i < |d| => d[i] < 0)
  }

  /** Python indexing of a length-`n` sequence, where a negative index counts
      from the end. */
  function PyIndex(n: nat, i: int): (k: nat)
    requires -(n as int) <= i < n
    ensures k < n
    ensures i >= 0 ==> k == i
    ensures i == -1 ==> k == n - 1
  {
    if i < 0 then n + i else i
  }

  /** `idx_high` after the replacement of 0 by -1. */
  function HighSlot(d: seq<int>): (s: int)
    requires |d| > 0
    ensures -1 <= s < |d| && s != 0
    ensures s == -1 <==> (d[0] < 0 || forall i :: 0 <= i < |d| ==> d[i] >= 0)
    ensures s > 0 ==> d[s] < 0 && forall i :: 0 <= i < s ==> d[i] >= 0
  {
    var i := FirstTrue(Falling(d));
    if i == 0 then -1 else i
  }

  /** Index of `f_low`: the left point of the first rising pair, or 0. */
  function LowIndex(v: seq<real>, t: real): (k: nat)
    requires |v| >= 2
    ensures k < |v| - 1
    ensures forall i :: 0 <= i < k ==> !RisesAt(v, t, i)
    ensures RisesAt(v, t, k) || (k == 0 && forall i :: 0 <= i < |v| - 1 ==> !RisesAt(v, t, i))
  {
    FirstTrue(Rising(Crossings(v, t)))
  }

  /** Index of `f_high`: the left point of the first falling pair, except
      that a falling pair at position 0 and the absence of any falling pair
      both give the last grid index. */
  function HighIndex(v: seq<real>, t: real): (k: nat)
    requires |v| >= 2
    ensures k < |v|
    ensures k == |v| - 1 <==> (FallsAt(v, t, 0) || forall i :: 0 <= i < |v| - 1 ==> !FallsAt(v, t, i))
    ensures k < |v| - 1 ==> 0 < k && FallsAt(v, t, k) && forall i :: 0 <= i < k ==> !FallsAt(v, t, i)
  {
    PyIndex(|v|, HighSlot(Crossings(v, t)))
  }

  /** Conversely, the first rising pair is the low index. */
  lemma LowIndexIsFirstRise(v: seq<real>, t: real, k: nat)
    requires k + 1 < |v|
    requires RisesAt(v, t, k)
    requires forall i :: 0 <= i < k ==> !RisesAt(v, t, i)
    ensures LowIndex(v, t) == k
  {
  }

  /** Conversely, a first falling pair at a positive position is the high
      index. */
  lemma HighIndexIsFirstFall(v: seq<real>, t: real, k: nat)
    requires 0 < k && k + 1 < |v|
    requires FallsAt(v, t, k)
    requires forall i :: 0 <= i < k ==> !FallsAt(v, t, i)
    ensures HighIndex(v, t) == k
  {
  }

  /** The three grid indices chosen for one column. */
  datatype Bracket = Bracket(low: nat, peak: nat, high: nat)

  function SelectBracket(v: seq<real>, frac: real): (b: Bracket)
    requires |v| >= 2
    ensures b.low < |v| && b.peak < |v| && b.high < |v|
    ensures v[b.peak] == Max(v)
    ensures forall i :: 0 <= i < b.peak ==> v[i] < v[b.peak]
  {
    var t := Threshold(v, frac);
    Bracket(LowIndex(v, t), ArgMax(v), HighIndex(v, t))
  }

  /** An identically zero column: the threshold is 0, nothing crosses it, so
      the low and peak indices are 0 and the high index is the last one. */
  lemma AllZeroColumn(v: seq<real>, frac: real)
    requires |v| >= 2
    requires forall i :: 0 <= i < |v| ==> v[i] == 0.0
    ensures SelectBracket(v, frac) == Bracket(0, 0, |v| - 1)
  {
    assert Max(v) == 0.0;
    assert Threshold(v, frac) == 0.0;
  }

  /** Below-to-at-or-above the threshold between samples `j` and `p` means a
      rising pair somewhere in between. */
  lemma {:induction false} RisingPairBetween(v: seq<real>, t: real, j: nat, p: nat) returns (i: nat)
    requires j < p < |v|
    requires v[j] < t <= v[p]
    ensures j <= i < p
    ensures RisesAt(v, t, i)
    decreases p - j
  {
    if t <= v[j + 1] {
      i := j;
    } else {
      i := RisingPairBetween(v, t, j + 1, p);
    }
  }

  /** Scaling a non-negative value by a fraction in [0, 1] does not raise it. */
  lemma ScaledBelow(frac: real, m: real)
    requires 0.0 <= frac <= 1.0 && 0.0 <= m
    ensures frac * m <= m
  {
    assert m - frac * m == (1.0 - frac) * m;
  }

  /** A sample strictly below `t` before a sample at or above it puts the
      low index strictly before the latter. */
  lemma LowBeforeRise(v: seq<real>, t: real, j: nat, p: nat)
    requires j < p < |v|
    requires v[j] < t <= v[p]
    ensures LowIndex(v, t) < p
  {
    var i := RisingPairBetween(v, t, j, p);
    assert LowIndex(v, t) <= i;
  }

  /** If some sample before the peak is strictly below a threshold that does
      not exceed the peak value, the low index lies strictly before the peak. */
  lemma {:induction false} LowBeforePeak(v: seq<real>, t: real)
    requires |v| >= 2
    requires t <= v[ArgMax(v)]
    requires exists j :: 0 <= j < ArgMax(v) && v[j] < t
    ensures LowIndex(v, t) < ArgMax(v)
  {
    var p := ArgMax(v);
    var j :| 0 <= j < p && v[j] < t;
    LowBeforeRise(v, t, j, p);
  }

  /** The same for the resampler's own threshold: with 0 <= frac <= 1, a
      non-negative maximum and a sample before the peak strictly below
      `frac * max`, the chosen low index lies strictly before the peak. */
  lemma LowBeforePeakFrac(v: seq<real>, frac: real)
    requires |v| >= 2
    requires 0.0 <= frac <= 1.0 && Max(v) >= 0.0
    requires exists j :: 0 <= j < ArgMax(v) && v[j] < Threshold(v, frac)
    ensures SelectBracket(v, frac).low < SelectBracket(v, frac).peak
  {
    assert v[ArgMax(v)] == Max(v);
    LowBeforePeak(v, Threshold(v, frac));
  }

  /** The column strictly increases from sample `i` to sample `i + 1`. */
  predicate RisingStep(v: seq<real>, i: nat)
    requires i + 1 < |v|
  {
    v[i] < v[i + 1]
  }

  /** The column strictly decreases from sample `i` to sample `i + 1`. */
  predicate FallingStep(v: seq<real>, i: nat)
    requires i + 1 < |v|
  {
    v[i] > v[i + 1]
  }

  /** A strict rise between samples `a` and `b` contains a rising step. */
  lemma {:induction false} RisingStepBetween(v: seq<real>, a: nat, b: nat) returns (k: nat)
    requires a < b < |v|
    requires v[a] < v[b]
    ensures a <= k < b
    ensures RisingStep(v, k)
    decreases b - a
  {
    if v[a] < v[a + 1] {
      k := a;
    } else {
      k := RisingStepBetween(v, a + 1, b);
    }
  }

  /** A strict fall between samples `a` and `b` contains a falling step. */
  lemma {:induction false} FallingStepBetween(v: seq<real>, a: nat, b: nat) returns (k: nat)
    requires a < b < |v|
    requires v[a] > v[b]
    ensures a <= k < b
    ensures FallingStep(v, k)
    decreases b - a
  {
    if v[a] > v[a + 1] {
      k := a;
    } else {
      k := FallingStepBetween(v, a + 1, b);
    }
  }

  /** Once the column has taken a falling step it never takes a rising one:
      a single, possibly flat-topped, peak. */
  predicate Unimodal(v: seq<real>)
  {
    forall i: nat, j: nat :: i < j < |v| - 1 && FallingStep(v, i) ==> !RisingStep(v, j)
  }

  /** In a unimodal column the steps before the first maximum never fall and
      the steps from it on never rise. */
  lemma UnimodalAroundPeak(v: seq<real>)
    requires |v| >= 2
    requires Unimodal(v)
    ensures forall i: nat :: i < ArgMax(v) ==> !FallingStep(v, i)
    ensures forall i: nat :: ArgMax(v) <= i < |v| - 1 ==> !RisingStep(v, i)
  {
    var p := ArgMax(v);
    forall i: nat | i < p
      ensures !FallingStep(v, i)
    {
      if FallingStep(v, i) {
        if i + 1 < p {
          var k := RisingStepBetween(v, i + 1, p);
        }
        assert false;
      }
    }
    forall i: nat | p <= i < |v| - 1
      ensures !RisingStep(v, i)
    {
      if RisingStep(v, i) {
        if p < i {
          var k := FallingStepBetween(v, p, i);
        }
        assert false;
      }
    }
  }

  /** For a unimodal column the indices are ordered low <= peak <= high,
      whatever the threshold. */
  lemma {:induction false} UnimodalOrdered(v: seq<real>, t: real)
    requires |v| >= 2
    requires Unimodal(v)
    ensures LowIndex(v, t) <= ArgMax(v) <= HighIndex(v, t)
  {
    UnimodalAroundPeak(v);
    var lo := LowIndex(v, t);
    if RisesAt(v, t, lo) {
      assert RisingStep(v, lo);
    }
    var hi := HighIndex(v, t);
    if hi < |v| - 1 {
      assert FallingStep(v, hi);
    }
  }

  /** The grid positions are strictly increasing. */
  predicate Increasing(fs: seq<real>)
  {
    forall i, j :: 0 <= i < j < |fs| ==> fs[i] < fs[j]
  }

  /** On an increasing grid, a later position holds a value at least as large. */
  lemma IncreasingMonotone(fs: seq<real>, i: nat, j: nat)
    requires Increasing(fs)
    requires i <= j < |fs|
    ensures fs[i] <= fs[j]
  {
  }

  /** On an increasing grid a unimodal column gives f_low <= f_peak <= f_high. */
  lemma UnimodalGridOrdered(fs: seq<real>, v: seq<real>, t: real)
    requires |v| == |fs| >= 2
    requires Increasing(fs) && Unimodal(v)
    ensures fs[LowIndex(v, t)] <= fs[ArgMax(v)] <= fs[HighIndex(v, t)]
  {
    UnimodalOrdered(v, t);
    IncreasingMonotone(fs, LowIndex(v, t), ArgMax(v));
    IncreasingMonotone(fs, ArgMax(v), HighIndex(v, t));
  }

  /** The bracket the resampler chooses for a unimodal column is ordered,
      in index and, on an increasing grid, in abundance. */
  lemma UnimodalBracketOrdered(fs: seq<real>, v: seq<real>, frac: real)
    requires |v| == |fs| >= 2
    requires Increasing(fs) && Unimodal(v)
    ensures var b := SelectBracket(v, frac);
            && b.low <= b.peak <= b.high
            && fs[b.low] <= fs[b.peak] <= fs[b.high]
  {
    UnimodalOrdered(v, Threshold(v, frac));
    UnimodalGridOrdered(fs, v, Threshold(v, frac));
  }

  /** Without unimodality the low index can lie after the peak: the column
      starts at its maximum, drops below the threshold and rises again. */
  lemma LowAfterPeakExample()
    ensures SelectBracket([10.0, 0.0, 5.0], 0.5) == Bracket(1, 0, 2)
  {
    var v := [10.0, 0.0, 5.0];
    assert !RisesAt(v, 5.0, 0) && RisesAt(v, 5.0, 1) && FallsAt(v, 5.0, 0);
    ArgMaxUnique(v, 0);
    assert Threshold(v, 0.5) == 5.0;
    LowIndexIsFirstRise(v, 5.0, 1);
  }

  /** Without unimodality the high index can lie before the peak: a lesser
      bump crosses the threshold before the maximum does. */
  lemma HighBeforePeakExample()
    ensures SelectBracket([0.0, 5.0, 0.0, 10.0], 0.25) == Bracket(0, 3, 1)
  {
    var v := [0.0, 5.0, 0.0, 10.0];
    assert RisesAt(v, 2.5, 0) && !FallsAt(v, 2.5, 0) && FallsAt(v, 2.5, 1);
    HighIndexIsFirstFall(v, 2.5, 1);
    LowIndexIsFirstRise(v, 2.5, 0);
    ArgMaxUnique(v, 3);
    assert Threshold(v, 0.25) == 2.5;
  }
}
