/** The favorites of main.js: an ordered list of stop ids kept in one storage entry,
    toggled from a marker's popup star, pruned from the favorites panel and resolved
    against the catalog when the panel is drawn. */
module Favorites {
  import opened Seqs
  import opened Stops

  /** The list toggleFav stores: an absent id is appended, otherwise its first occurrence is spliced out. */
  function Toggled(favs: seq<StopId>, id: StopId): seq<StopId> {
    if id in favs then RemoveFirst(favs, id) else favs + [id]
  }

  /** stops.find(s => s.id === id): the first catalog stop with that id, if any. */
  function FindById(stops: seq<Stop>, id: StopId): (r: Option<Stop>)
    ensures r.None? <==> forall k :: 0 <= k < |stops| ==> stops[k].id != id
    ensures r.Some? ==> r.value in stops && r.value.id == id
  {
    if stops == [] then None
    else if stops[0].id == id then Some(stops[0])
    else FindById(stops[1..], id)
  }

  /** The favorite ids that name some stop of the catalog, in favorites-list order. */
  function KnownIds(favs: seq<StopId>, stops: seq<Stop>): seq<StopId> {
    Filter(favs, (id: StopId) => FindById(stops, id).Some?)
  }

  /** The stops renderFavorites lists: each favorite id resolved with find, dangling ids skipped. */
  function Resolve(favs: seq<StopId>, stops: seq<Stop>): seq<Stop> {
    if favs == [] then []
    else
      match FindById(stops, favs[0])
      case None => Resolve(favs[1..], stops)
      case Some(s) => [s] + Resolve(favs[1..], stops)
  }

  function Ids(stops: seq<Stop>): (r: seq<StopId>)
    ensures |r| == |stops| && forall k :: 0 <= k < |stops| ==> r[k] == stops[k].id
  {
    seq(|stops|, k requires 0 <= k < |stops| => stops[k].id)
  }

  /** find returns the first stop carrying the id, whatever comes after it. */
  lemma {:induction false} FindByIdFirst(stops: seq<Stop>, id: StopId, k: nat)
    requires k < |stops| && stops[k].id == id
    requires forall j :: 0 <= j < k ==> stops[j].id != id
    ensures FindById(stops, id) == Some(stops[k])
  {
    if k > 0 {
      FindByIdFirst(stops[1..], id, k - 1);
    }
  }

  /** On an absent id, toggleFav appends it and keeps every earlier entry in place. */
  lemma ToggleAbsent(favs: seq<StopId>, id: StopId)
    requires id !in favs
    ensures |Toggled(favs, id)| == |favs| + 1 && Toggled(favs, id)[|favs|] == id
    ensures Toggled(favs, id)[..|favs|] == favs
  {
  }

  /** On a present id, toggleFav splices out its first occurrence and keeps the rest in order. */
  lemma TogglePresent(favs: seq<StopId>, id: StopId, k: nat)
    requires k < |favs| && favs[k] == id && id !in favs[..k]
    ensures Toggled(favs, id) == favs[..k] + favs[k + 1..]
  {
    RemoveFirstAt(favs, id, k);
  }

  /** toggleFav changes the count of the toggled id by one and no other count. */
  lemma ToggleCounts(favs: seq<StopId>, id: StopId)
    ensures multiset(Toggled(favs, id))[id]
         == if id in favs then multiset(favs)[id] - 1 else multiset(favs)[id] + 1
    ensures forall x :: x != id ==> multiset(Toggled(favs, id))[x] == multiset(favs)[x]
  {
    if id in favs {
      RemoveFirstCount(favs, id);
    }
  }

  /** Toggling an absent id twice gives back exactly the original list. */
  lemma ToggleTwiceAbsent(favs: seq<StopId>, id: StopId)
    requires id !in favs
    ensures Toggled(Toggled(favs, id), id) == favs
  {
    var t := favs + [id];
    assert t[..|favs|] == favs;
    RemoveFirstAt(t, id, |favs|);
  }

  /** On a list without duplicates, toggling twice restores whether the id is a favorite. */
  lemma ToggleTwiceMembership(favs: seq<StopId>, id: StopId)
    requires NoDup(favs)
    ensures (id in Toggled(Toggled(favs, id), id)) == (id in favs)
  {
    if id in favs {
      RemoveFirstNoDup(favs, id);
      assert id in Toggled(favs, id) + [id];
    } else {
      ToggleTwiceAbsent(favs, id);
    }
  }

  /** toggleFav never introduces a duplicate. */
  lemma ToggleKeepsNoDup(favs: seq<StopId>, id: StopId)
    requires NoDup(favs)
    ensures NoDup(Toggled(favs, id))
    ensures id in Toggled(favs, id) <==> id !in favs
  {
    if id in favs {
      RemoveFirstNoDup(favs, id);
    } else {
      NoDupSnoc(favs, id);
    }
  }

  /** On a list without duplicates, the panel's remove button and un-starring agree. */
  lemma RemoveAgreesWithToggle(favs: seq<StopId>, id: StopId)
    requires NoDup(favs) && id in favs
    ensures RemoveAll(favs, id) == Toggled(favs, id)
  {
    RemoveFirstIsFilter(favs, id);
  }

  /** The panel shows, in favorites-list order, exactly the favorite ids that name a stop,
      each as the first catalog stop with that id. */
  lemma {:induction false} ResolveSpec(favs: seq<StopId>, stops: seq<Stop>)
    ensures Ids(Resolve(favs, stops)) == KnownIds(favs, stops)
    ensures forall k :: 0 <= k < |Resolve(favs, stops)| ==>
      FindById(stops, Resolve(favs, stops)[k].id) == Some(Resolve(favs, stops)[k])
  {
    if favs != [] {
      ResolveSpec(favs[1..], stops);
      var r := Resolve(favs, stops);
      var rest := Resolve(favs[1..], stops);
      match FindById(stops, favs[0])
      case None =>
      case Some(s) =>
        assert r == [s] + rest;
        assert Ids(r) == [s.id] + Ids(rest);
    }
  }

  /** Every listed stop is in the catalog and is a favorite; a favorite with a stop is listed. */
  lemma ResolveSoundComplete(favs: seq<StopId>, stops: seq<Stop>)
    ensures forall k :: 0 <= k < |Resolve(favs, stops)| ==>
      Resolve(favs, stops)[k] in stops && Resolve(favs, stops)[k].id in favs
    ensures forall i :: 0 <= i < |favs| && FindById(stops, favs[i]).Some? ==>
      favs[i] in Ids(Resolve(favs, stops))
  {
    ResolveSpec(favs, stops);
    var r := Resolve(favs, stops);
    forall k | 0 <= k < |r| ensures r[k] in stops && r[k].id in favs {
      assert Ids(r)[k] == r[k].id;
    }
  }

  /** Resolving one more favorite id extends the list by at most that id's stop. */
  lemma {:induction false} ResolveSnoc(favs: seq<StopId>, id: StopId, stops: seq<Stop>)
    ensures Resolve(favs + [id], stops) == Resolve(favs, stops) + Resolve([id], stops)
  {
    if favs != [] {
      assert (favs + [id])[1..] == favs[1..] + [id];
      ResolveSnoc(favs[1..], id, stops);
    }
  }

  /** The favoriteStops storage entry, holding the decoded list of ids. */
  class FavoritesStore {
    var slot: seq<StopId>

    /** A missing entry reads as the empty list. */
    constructor ()
      ensures slot == []
    {
      slot := [];
    }

    /** getFavorites: what was saved last. */
    method GetFavorites() returns (favs: seq<StopId>)
      ensures favs == slot
    {
      favs := slot;
    }

    /** saveFavorites: replaces the stored list. */
    method SaveFavorites(favs: seq<StopId>)
      modifies this
      ensures slot == favs
    {
      slot := favs;
    }

    /** isFavorite: whether the stored list holds the id. */
    method IsFavorite(id: StopId) returns (b: bool)
      ensures b <==> id in slot
    {
      var favs := GetFavorites();
      var idx := IndexOf(favs, id);
      b := idx != -1;
    }

    /** toggleFav: flips the stop's membership and stores the list; starOn is the star's new state. */
    method ToggleFav(stop: Stop) returns (starOn: bool)
      modifies this
      ensures slot == Toggled(old(slot), stop.id)
      ensures starOn <==> stop.id !in old(slot)
      ensures NoDup(old(slot)) ==> NoDup(slot) && (starOn <==> stop.id in slot)
    {
      var favs := GetFavorites();
      var idx := IndexOf(favs, stop.id);
      if idx == -1 {
        favs := favs + [stop.id];
        starOn := true;
      } else {
        RemoveFirstAt(favs, stop.id, idx);
        favs := favs[..idx] + favs[idx + 1..];
        starOn := false;
      }
      if NoDup(slot) {
        ToggleKeepsNoDup(slot, stop.id);
      }
      SaveFavorites(favs);
    }

    /** renderFavorites: the stops the panel lists for the stored ids. */
    method RenderFavorites(stops: seq<Stop>) returns (items: seq<Stop>)
      ensures items == Resolve(slot, stops)
    {
      var favs := GetFavorites();
      items := [];
      var i := 0;
      while i < |favs|
        invariant 0 <= i <= |favs|
        invariant items == Resolve(favs[..i], stops)
      {
        var id := favs[i];
        var found := FindById(stops, id);
        assert favs[..i + 1] == favs[..i] + [id];
        ResolveSnoc(favs[..i], id, stops);
        if found.Some? {
          items := items + [found.value];
        }
        i := i + 1;
      }
      assert favs[..i] == favs;
    }

    /** The panel's remove button: drops every occurrence of the id, stores the list and redraws. */
    method RemoveClicked(id: StopId, stops: seq<Stop>) returns (items: seq<Stop>)
      modifies this
      ensures slot == RemoveAll(old(slot), id)
      ensures NoDup(old(slot)) ==> NoDup(slot)
      ensures items == Resolve(slot, stops)
    {
      var favs := GetFavorites();
      var updated := RemoveAll(favs, id);
      if NoDup(favs) {
        RemoveAllNoDup(favs, id);
      }
      SaveFavorites(updated);
      items := RenderFavorites(stops);
    }
  }
}
