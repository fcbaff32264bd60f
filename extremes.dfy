/**
 * numpy's `argmin` / `argmax` (and pandas' `idxmin` / `idxmax` on a default
 * index): the position of the first smallest or largest value.
 */
module Extremes {

  /** `i` holds a smallest value of `xs`, and no earlier position does. */
  ghost predicate IsFirstMin(xs: seq<real>, i: int)
  {
    && 0 <= i < |xs|
    && (forall j :: 0 <= j < |xs| ==> xs[i] <= xs[j])
    && (forall j :: 0 <= j < i ==> xs[j] > xs[i])
  }

  /** `i` holds a largest value of `xs`, and no earlier position does. */
  ghost predicate IsFirstMax(xs: seq<real>, i: int)
  {
    && 0 <= i < |xs|
    && (forall j :: 0 <= j < |xs| ==> xs[j] <= xs[i])
    && (forall j :: 0 <= j < i ==> xs[j] < xs[i])
  }

  /** `np.argmin(xs)`: numpy raises on an empty sequence, hence the requires. */
  function ArgMin(xs: seq<real>): (i: nat)
    requires |xs| > 0
    ensures IsFirstMin(xs, i)
    decreases |xs|
  {
    if |xs| == 1 then 0
    else
      var k := ArgMin(xs[1..]) + 1;
      if xs[0] <= xs[k] then 0 else k
  }

  /** `np.argmax(xs)`: numpy raises on an empty sequence, hence the requires. */
  function ArgMax(xs: seq<real>): (i: nat)
    requires |xs| > 0
    ensures IsFirstMax(xs, i)
    decreases |xs|
  {
    if |xs| == 1 then 0
    else
      var k := ArgMax(xs[1..]) + 1;
      if xs[0] >= xs[k] then 0 else k
  }
}
