/** The selection rule of both "locate me" handlers: a left-to-right scan that
    replaces its candidate only on a strictly smaller distance. */
module Nearest {

  /** k is the first index at which dist attains its minimum over xs. */
  ghost predicate IsFirstNearest<T>(xs: seq<T>, dist: T -> real, k: int) {
    && 0 <= k < |xs|
    && (forall j :: 0 <= j < |xs| ==> dist(xs[k]) <= dist(xs[j]))
    && (forall j :: 0 <= j < k ==> dist(xs[k]) < dist(xs[j]))
  }

  /** The index the scan keeps after visiting all of xs. */
  function ArgMin<T>(xs: seq<T>, dist: T -> real): (k: nat)
    requires |xs| > 0
    ensures IsFirstNearest(xs, dist, k)
    decreases |xs|
  {
    if |xs| == 1 then 0
    else
      var k := ArgMin(xs[..|xs| - 1], dist);
      if dist(xs[|xs| - 1]) < dist(xs[k]) then |xs| - 1 else k
  }

  /** The first nearest index is unique, so any scan meeting IsFirstNearest agrees with ArgMin. */
  lemma FirstNearestUnique<T>(xs: seq<T>, dist: T -> real, k: int)
    requires IsFirstNearest(xs, dist, k)
    ensures k == ArgMin(xs, dist)
  {
  }
}
