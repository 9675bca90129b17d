/** numpy's `geomspace`: `num` points running geometrically from `start` to
    `stop`. Exact reals have no logarithms or real powers, so only what numpy
    guarantees exactly is modelled: the number of points and the two ends,
    which numpy writes back verbatim after computing in log space. The points
    in between are supplied by a caller-chosen function. */
module Geometric {

  /** `interior(start, stop, k, num)` is the k-th of `num` points strictly
      between the two ends of a geometric run. */
  type Interior = (real, real, nat, nat) -> real

  /** numpy refuses a geometric run with an end at zero. */
  predicate Defined(start: real, stop: real)
  {
    start != 0.0 && stop != 0.0
  }

  function Geomspace(start: real, stop: real, num: nat, interior: Interior): (r: seq<real>)
    requires Defined(start, stop)
    ensures |r| == num
    ensures num >= 1 ==> r[0] == start
    ensures num >= 2 ==> r[num - 1] == stop
  {
    seq(num, k requires 0 <= k < num =>
      if k == 0 then start
      else if k == num - 1 then stop
      else interior(start, stop, k, num))
  }

  /** A single point is the start alone: the run never reaches `stop`. */
  lemma SinglePointIsStart(start: real, stop: real, interior: Interior)
    requires Defined(start, stop)
    ensures Geomspace(start, stop, 1, interior) == [start]
  {
  }
}
