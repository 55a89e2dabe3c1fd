/** The "locate me" handler of main.js: the scan starts from the first stop and moves
    to a later stop only when it is strictly closer. */
module Locate {
  import opened Stops
  import opened Nearest

  /** dist gives each stop's distance from the reported position. The handler reads
      stops[0] before scanning, so it needs at least one stop. */
  method LocateNearest(stops: seq<Stop>, dist: Stop -> real) returns (nearest: Stop)
    requires |stops| > 0
    ensures nearest == stops[ArgMin(stops, dist)]
    ensures forall j :: 0 <= j < |stops| ==> dist(nearest) <= dist(stops[j])
  {
    nearest := stops[0];
    var minD := dist(nearest);
    ghost var k := 0;
    var i := 0;
    while i < |stops|
      invariant 0 <= i <= |stops|
      invariant k == ArgMin(stops[..if i == 0 then 1 else i], dist)
      invariant nearest == stops[k] && minD == dist(nearest)
    {
      var s := stops[i];
      var d := dist(s);
      if i > 0 {
        assert stops[..i + 1][..i] == stops[..i];
      }
      if d < minD {
        minD := d;
        nearest := s;
        k := i;
      }
      i := i + 1;
    }
    assert stops[..i] == stops;
  }
}
