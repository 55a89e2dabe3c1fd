/** The search-as-you-type box of main.js: the query is trimmed and lower-cased, and
    the suggestion list shows the first five stops, in catalog order, whose lower-cased
    name contains it. */
module Search {
  import opened Seqs
  import opened Text
  import opened Stops

  const MaxSuggestions: nat := 5

  /** The suggestion list and whether it is displayed. */
  datatype SuggestionBox = SuggestionBox(items: seq<Stop>, shown: bool)

  /** The query as the handler compares it. */
  function Query(raw: string): string {
    Lower(Trim(raw))
  }

  /** Every stop of the catalog whose lower-cased name contains q. */
  function Matches(stops: seq<Stop>, q: string): seq<Stop> {
    Filter(stops, (s: Stop) => Contains(Lower(s.name), q))
  }

  /** What the debounced input handler leaves in the suggestion box. */
  function Suggest(stops: seq<Stop>, raw: string): (box: SuggestionBox)
    ensures box.shown <==> box.items != []
  {
    var q := Query(raw);
    if q == [] then SuggestionBox([], false)
    else
      var all := Matches(stops, q);
      var items := all[..Capped(|all|)];
      SuggestionBox(items, |items| > 0)
  }

  /** A query of white space only hides the box and suggests nothing. */
  lemma SuggestBlank(stops: seq<Stop>, raw: string)
    requires forall k :: 0 <= k < |raw| ==> IsSpace(raw[k])
    ensures Suggest(stops, raw) == SuggestionBox([], false)
  {
  }

  /** The number of suggestions for n matching stops. */
  function Capped(n: nat): (c: nat)
    ensures c <= n && c <= MaxSuggestions
    ensures c == n || c == MaxSuggestions
  {
    if n < MaxSuggestions then n else MaxSuggestions
  }

  /** The stop's lower-cased name has an occurrence of q somewhere. */
  ghost predicate NameHas(s: Stop, q: string) {
    Occurs(Lower(s.name), q)
  }

  lemma NameHasIffContains(s: Stop, q: string)
    ensures NameHas(s, q) <==> Contains(Lower(s.name), q)
  {
    ContainsIffOccurs(Lower(s.name), q);
  }

  /** The matches are the stops, in catalog order, whose lower-cased name has an occurrence of q. */
  lemma MatchesSpec(stops: seq<Stop>, q: string)
    ensures IsSubsequence(Matches(stops, q), stops)
    ensures forall k :: 0 <= k < |Matches(stops, q)| ==>
      Matches(stops, q)[k] in stops && NameHas(Matches(stops, q)[k], q)
    ensures forall j :: 0 <= j < |stops| && NameHas(stops[j], q) ==>
      stops[j] in Matches(stops, q)
  {
    var all := Matches(stops, q);
    FilterIsSubsequence(stops, (s: Stop) => Contains(Lower(s.name), q));
    forall k | 0 <= k < |all| ensures all[k] in stops && NameHas(all[k], q) {
      assert Contains(Lower(all[k].name), q);
      NameHasIffContains(all[k], q);
    }
    forall j | 0 <= j < |stops| && NameHas(stops[j], q) ensures stops[j] in all {
      NameHasIffContains(stops[j], q);
    }
  }

  /** Any other query suggests the first min(5, n) of the n matching stops, in catalog order. */
  lemma SuggestMatching(stops: seq<Stop>, raw: string)
    requires exists k :: 0 <= k < |raw| && !IsSpace(raw[k])
    ensures Suggest(stops, raw).shown <==> Matches(stops, Query(raw)) != []
    ensures Suggest(stops, raw).items == Matches(stops, Query(raw))[..Capped(|Matches(stops, Query(raw))|)]
  {
  }

  /** Each suggestion is a catalog stop whose lower-cased name contains the query, the
      suggestions keep catalog order, and when at most five stops match all of them are suggested. */
  lemma SuggestionsSound(stops: seq<Stop>, raw: string)
    requires exists k :: 0 <= k < |raw| && !IsSpace(raw[k])
    ensures IsSubsequence(Suggest(stops, raw).items, stops)
    ensures forall k :: 0 <= k < |Suggest(stops, raw).items| ==>
      Suggest(stops, raw).items[k] in stops
      && NameHas(Suggest(stops, raw).items[k], Query(raw))
    ensures |Matches(stops, Query(raw))| <= MaxSuggestions ==>
      forall j :: 0 <= j < |stops| && NameHas(stops[j], Query(raw)) ==>
        stops[j] in Suggest(stops, raw).items
  {
    var all := Matches(stops, Query(raw));
    SuggestMatching(stops, raw);
    MatchesSpec(stops, Query(raw));
    var items := Suggest(stops, raw).items;
    PrefixOfSubsequence(all, stops, |items|);
    assert forall k :: 0 <= k < |items| ==> items[k] == all[k];
    if |all| <= MaxSuggestions {
      assert items == all;
    }
  }
}
