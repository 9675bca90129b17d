/** The three numpy reductions the resampler applies along the sample axis of
    each column: `max`, `argmax` over values and `argmax` over a boolean mask. */
module Reductions {

  /** The largest entry of a non-empty column (numpy's `max` along an axis). */
  function Max(v: seq<real>): (m: real)
    requires |v| > 0
    ensures m in v
    ensures forall i :: 0 <= i < |v| ==> v[i] <= m
  {
    if |v| == 1 then v[0]
    else
      var rest := Max(v[1..]);
      if v[0] >= rest then v[0] else rest
  }

  /** numpy's `argmax` over values: the FIRST position holding the maximum. */
  function ArgMax(v: seq<real>): (k: nat)
    requires |v| > 0
    ensures k < |v|
    ensures forall i :: 0 <= i < |v| ==> v[i] <= v[k]
    ensures forall i :: 0 <= i < k ==> v[i] < v[k]
  {
    if |v| == 1 then 0
    else
      var k' := ArgMax(v[1..]);
      if v[0] >= v[1 + k'] then 0 else 1 + k'
  }

  /** numpy's `argmax` over a boolean mask: the first `true` position, and 0
      when the mask holds no `true` at all. */
  function FirstTrue(b: seq<bool>): (k: nat)
    requires |b| > 0
    ensures k < |b|
    ensures forall i :: 0 <= i < k ==> !b[i]
    ensures b[k] || (k == 0 && forall i :: 0 <= i < |b| ==> !b[i])
  {
    if b[0] || |b| == 1 then 0
    else
      var k' := FirstTrue(b[1..]);
      if b[1 + k'] then 1 + k' else 0
  }

  /** The position `ArgMax` picks is the only one that no value exceeds and
      that has only strictly smaller values before it; its value is `Max`. */
  lemma ArgMaxUnique(v: seq<real>, k: nat)
    requires k < |v|
    requires forall i :: 0 <= i < |v| ==> v[i] <= v[k]
    requires forall i :: 0 <= i < k ==> v[i] < v[k]
    ensures Max(v) == v[k]
    ensures ArgMax(v) == k
  {
  }
}
