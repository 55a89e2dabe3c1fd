/** script.js: one marker per stop, a search box that shows exactly the markers whose
    lower-cased name contains the lower-cased query, and a "locate me" button whose
    scan starts from no candidate at an infinite distance. */
module MarkerMap {
  import opened Seqs
  import opened Text
  import opened Stops
  import opened Nearest

  /** A marker with the lower-cased name the load step attaches to it. */
  datatype Marker = Marker(stop: Stop, stopName: string)

  function MarkerFor(stop: Stop): Marker {
    Marker(stop, Lower(stop.name))
  }

  /** The markers of data, in order, as the load step creates them. */
  function MarkersFor(data: seq<Stop>): seq<Marker> {
    seq(|data|, j requires 0 <= j < |data| => MarkerFor(data[j]))
  }

  /** The indices 0 .. n - 1. */
  function Indices(n: nat): (r: set<nat>)
    ensures forall i: int :: i in r <==> 0 <= i < n
  {
    if n == 0 then {} else Indices(n - 1) + {n - 1}
  }

  /** The indices of the markers whose stored name contains q. */
  function VisibleSet(markers: seq<Marker>, q: string): set<nat> {
    set i: nat | i < |markers| && Contains(markers[i].stopName, q)
  }

  /** A marker is shown exactly when its stored name has an occurrence of the lower-cased query;
      for a marker made by the load step that name is the lower-cased stop name. */
  lemma VisibleSetSpec(markers: seq<Marker>, raw: string)
    ensures forall i: nat :: i < |markers| ==>
      (i in VisibleSet(markers, Lower(raw)) <==> Occurs(markers[i].stopName, Lower(raw)))
    ensures forall i :: i in VisibleSet(markers, Lower(raw)) ==> i < |markers|
    ensures forall i: nat :: i < |markers| && markers[i] == MarkerFor(markers[i].stop) ==>
      (i in VisibleSet(markers, Lower(raw)) <==> Occurs(Lower(markers[i].stop.name), Lower(raw)))
  {
    forall i: nat | i < |markers|
      ensures i in VisibleSet(markers, Lower(raw)) <==> Occurs(markers[i].stopName, Lower(raw))
    {
      ContainsIffOccurs(markers[i].stopName, Lower(raw));
    }
  }

  /** An empty query shows every marker. */
  lemma EmptyQueryShowsAll(markers: seq<Marker>)
    ensures VisibleSet(markers, Lower("")) == Indices(|markers|)
  {
  }

  /** The page's stop list, its markers and the set of markers currently on the map. */
  class StopMap {
    var stops: seq<Stop>
    var markers: seq<Marker>
    /** Indices into markers of the markers that are layers of the map. */
    var onMap: set<nat>

    ghost predicate Valid()
      reads this
    {
      forall i :: i in onMap ==> i < |markers|
    }

    constructor ()
      ensures Valid()
      ensures stops == [] && markers == [] && onMap == {}
    {
      stops, markers, onMap := [], [], {};
    }

    /** The fetch callback: keeps the stops and adds one marker per stop, shown on the map. */
    method LoadStops(data: seq<Stop>)
      requires Valid()
      modifies this
      ensures Valid()
      ensures stops == data
      ensures markers == old(markers) + MarkersFor(data)
      ensures onMap == old(onMap) + (Indices(|markers|) - Indices(|old(markers)|))
    {
      stops := data;
      var i := 0;
      while i < |data|
        invariant 0 <= i <= |data|
        invariant stops == data
        invariant markers == old(markers) + MarkersFor(data[..i])
        invariant onMap == old(onMap) + (Indices(|markers|) - Indices(|old(markers)|))
      {
        var marker := MarkerFor(data[i]);
        onMap := onMap + {|markers|};
        markers := markers + [marker];
        assert MarkersFor(data[..i + 1]) == MarkersFor(data[..i]) + [marker];
        i := i + 1;
      }
      assert data[..i] == data;
    }

    /** The input handler: each marker is put on or taken off the map by its own name. */
    method OnInput(raw: string)
      requires Valid()
      modifies this`onMap
      ensures Valid()
      ensures onMap == VisibleSet(markers, Lower(raw))
    {
      var query := Lower(raw);
      var i := 0;
      while i < |markers|
        invariant 0 <= i <= |markers|
        invariant forall j :: 0 <= j < i ==> (j in onMap <==> Contains(markers[j].stopName, query))
        invariant forall j :: i <= j < |markers| ==> (j in onMap <==> j in old(onMap))
        invariant forall j :: j in onMap ==> j < |markers|
      {
        if Contains(markers[i].stopName, query) {
          if i !in onMap {
            onMap := onMap + {i};
          }
        } else {
          if i in onMap {
            onMap := onMap - {i};
          }
        }
        i := i + 1;
      }
    }

    /** The locate handler: the first stop strictly closer than every earlier one wins; none when there are no stops. */
    method LocateNearest(dist: Stop -> real) returns (nearest: Option<Stop>)
      ensures stops == [] ==> nearest == None
      ensures stops != [] ==> nearest == Some(stops[ArgMin(stops, dist)])
    {
      var minDist: Option<real> := None;
      nearest := None;
      ghost var k := 0;
      var i := 0;
      while i < |stops|
        invariant 0 <= i <= |stops|
        invariant i == 0 ==> nearest == None && minDist == None
        invariant i > 0 ==>
          k == ArgMin(stops[..i], dist) && nearest == Some(stops[k]) && minDist == Some(dist(stops[k]))
      {
        var stop := stops[i];
        var d := dist(stop);
        if i > 0 {
          assert stops[..i + 1][..i] == stops[..i];
        }
        if minDist.None? || d < minDist.value {
          minDist := Some(d);
          nearest := Some(stop);
          k := i;
        }
        i := i + 1;
      }
      assert stops[..i] == stops;
    }
  }

  /** The visible set after an input event depends only on the markers and the query:
      once a query has been applied, applying it again changes nothing. */
  method RepeatInput(m: StopMap, raw: string)
    requires m.Valid() && m.onMap == VisibleSet(m.markers, Lower(raw))
    modifies m
    ensures m.Valid()
    ensures m.onMap == old(m.onMap)
    ensures m.markers == old(m.markers) && m.stops == old(m.stops)
  {
    m.OnInput(raw);
  }
}
