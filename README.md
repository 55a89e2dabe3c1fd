# mappa-fermate: stop search, nearest stop and favorites

A Dafny model of the logic inside the two pages of the transit-stop map
(Messina). `main.js` uses a clustered map, a suggestion dropdown, a "locate me"
button and a favorites list kept in browser storage. `script.js` is a simpler
page: it hides the markers that do not match the search box and has its own
"locate me" button. The model covers the sequential rules those pages apply.

- **Favorites** (main.js). The storage entry `favoriteStops` is the field `slot`
  of the class `Favorites.FavoritesStore`.
  - `ToggleFav` appends an absent id, or splices out the first occurrence of a
    present one (indexOf, then push or splice).
  - `RemoveClicked` is the panel's remove button: it filters out every copy of
    the id, stores the result and redraws the panel.
  - `RenderFavorites` resolves each stored id with `find` and skips ids that
    name no stop.
  - `Toggled`, `RemoveAll` and `Resolve` are the pure functions these methods
    are proved against. The lemmas beside them give the order, membership,
    count and no-duplicate properties.
- **Search** (main.js). The query is trimmed, then lower-cased. A blank query
  hides the box. Otherwise the box shows the first five stops, in catalog
  order, whose lower-cased name contains the query (`Search.Suggest`).
- **Marker filtering** (script.js). The query is lower-cased but not trimmed.
  Every marker whose stored lower-cased name contains it is put on the map, and
  every other marker is taken off (`MarkerMap.StopMap.OnInput`). So the empty
  query shows every marker.
- **Nearest stop** (both files). Each page scans the stops left to right and
  moves to a stop only when it is strictly closer, so the first stop at the
  minimum wins. main.js seeds the scan with the first stop. script.js seeds it
  with "no stop, infinite distance" and yields nothing on an empty catalog.
  Both scans are proved equal to `Nearest.ArgMin`, which is proved to give the
  first index at which the distance is smallest.

The distance from the reported position is a parameter `dist: Stop -> real`.
main.js uses the haversine formula and script.js uses `Math.hypot` on degrees.
Nothing in the model depends on which one is used. Lower-casing is modelled on
ASCII letters. `trim` removes the ECMAScript white-space and line-terminator
code points. `includes` is `Text.Contains`, proved equal to "has an occurrence
at some index" (`Text.ContainsIffOccurs`).

Other behaviour of the code that the model keeps:
- main.js shows at most five suggestions.
- A blank query gives no suggestions in main.js. In script.js the empty query
  shows every marker.
- Neither page strips diacritics: names and queries are only lower-cased.
- Ids are compared with `===` on their stored values.
- The favorites panel lists stops in favorites-list order, ungrouped.
- script.js measures distance with `Math.hypot` on degree values. The model
  takes the distance as a parameter, so this choice does not affect it.

`Favorites.ToggleTwiceMembership` requires a duplicate-free list. With two
copies of an id, one toggle removes only the first copy, so the id stays a
favorite. Two toggles then do not restore its membership. The store's own
operations keep a duplicate-free list duplicate-free (`ToggleFav` and
`RemoveClicked` ensure it), and it starts empty.

## Model

| member | source | states |
|---|---|---|
| Seqs.Filter | main.js:106-107 | every kept element is in the input and satisfies the predicate; every input element satisfying it is kept |
| Seqs.FilterIsSubsequence | main.js:106-107 | filtering keeps the input's order: the result is a subsequence of the input |
| Seqs.FilterCount | main.js:211 | filtering keeps every copy of an element that passes and no copy of one that fails |
| Seqs.IndexOf | main.js:78 | -1 exactly when the id is absent, otherwise the first index holding it |
| Seqs.RemoveFirstAt | main.js:85 | splicing out the element at the first index of x gives RemoveFirst: the elements before and after it, in order |
| Seqs.RemoveFirstCount | main.js:85 | the splice removes exactly one copy of a present id and changes no other count |
| Seqs.RemoveAllSpec | main.js:211 | the remove filter drops every copy of the id, keeps the count of every other id, and keeps their relative order |
| Seqs.RemoveAllNoDup | main.js:211 | the remove filter keeps a duplicate-free list duplicate-free |
| Seqs.RemoveFirstIsFilter | main.js:211 | on a duplicate-free list, removing the first copy and removing every copy agree |
| Text.Lower | main.js:102 | lower-casing keeps the length and maps every character on its own (ASCII letters to lower case) |
| Text.LowerIdempotent | main.js:107 | lower-casing twice is lower-casing once |
| Text.Trim | main.js:102 | the trimmed query is the slice of the input starting at its first non-space character, everything outside that slice is white space, and the slice neither starts nor ends with white space |
| Text.TrimBlank | main.js:102-104 | a query trims to the empty string exactly when it is white space only |
| Text.TrimIdempotent | main.js:102 | trimming a trimmed string changes nothing |
| Text.ContainsIffOccurs | main.js:107 | includes holds exactly when the query occurs at some index of the name |
| Nearest.ArgMin | main.js:141-147 | the scan's index: no stop is strictly closer than it, and every earlier stop is strictly farther |
| Nearest.FirstNearestUnique | main.js:143 | any index with those two properties is the scan's index, so the strict comparison decides ties |
| Locate.LocateNearest | main.js:138-147 | on a non-empty catalog, the scan seeded with stops[0] returns the first stop at the minimum distance |
| Favorites.FindById | main.js:194 | find yields nothing exactly when no stop has the id; otherwise a catalog stop with that id |
| Favorites.FindByIdFirst | main.js:194 | find yields the first stop with the id, whatever follows it |
| Favorites.ToggleAbsent | main.js:80-81 | toggling an absent id appends it at the end and leaves the earlier entries unchanged |
| Favorites.TogglePresent | main.js:84-85 | toggling a present id removes its first occurrence and keeps the rest in order |
| Favorites.ToggleCounts | main.js:77-85 | a toggle changes the toggled id's count by one (down if present, up if absent) and no other id's count |
| Favorites.ToggleTwiceAbsent | main.js:77-89 | toggling an absent id twice restores the exact original list |
| Favorites.ToggleTwiceMembership | main.js:77-89 | on a duplicate-free list, toggling twice restores whether the id is a favorite |
| Favorites.ToggleKeepsNoDup | main.js:78-85 | a toggle never introduces a duplicate, and afterwards the id is a favorite exactly when it was not before |
| Favorites.RemoveAgreesWithToggle | main.js:211 | on a duplicate-free list holding the id, the remove button stores the same list as un-starring |
| Favorites.ResolveSpec | main.js:193-195 | the panel lists exactly the favorite ids that name a stop, in favorites-list order, each as the first catalog stop with that id |
| Favorites.ResolveSoundComplete | main.js:193-195 | every listed stop is a catalog stop whose id is a favorite, and every favorite that names a stop is listed |
| Favorites.FavoritesStore.constructor | main.js:20-21 | an absent storage entry reads as the empty list |
| Favorites.FavoritesStore.GetFavorites | main.js:20-21 | reading returns the list saved last |
| Favorites.FavoritesStore.SaveFavorites | main.js:22-23 | saving replaces the stored list |
| Favorites.FavoritesStore.IsFavorite | main.js:24 | true exactly when the stored list holds the id |
| Favorites.FavoritesStore.ToggleFav | main.js:76-91 | stores Toggled of the old list; the star turns on exactly when the id was absent; a duplicate-free list stays duplicate-free |
| Favorites.FavoritesStore.RenderFavorites | main.js:189-219 | the listed stops are Resolve of the stored ids and the catalog |
| Favorites.FavoritesStore.RemoveClicked | main.js:210-214 | stores the old list without every copy of the id, keeps it duplicate-free, and redraws from the new list |
| Search.Suggest | main.js:102-121 | the box is displayed exactly when it holds a suggestion |
| Search.Capped | main.js:108 | slice(0, 5) keeps min(5, n) entries |
| Search.NameHasIffContains | main.js:107 | a stop matches exactly when the query occurs in its lower-cased name |
| Search.MatchesSpec | main.js:106-107 | the matches are catalog stops in catalog order; each has the query in its lower-cased name, and every such stop is a match |
| Search.SuggestBlank | main.js:102-104 | a white-space-only query suggests nothing and hides the box |
| Search.SuggestMatching | main.js:106-108 | any other query suggests the first min(5, n) of the n matches, and the box is shown exactly when there is a match |
| Search.SuggestionsSound | main.js:106-108 | every suggestion is a catalog stop whose lower-cased name contains the query; suggestions keep catalog order; with at most five matches all are suggested |
| MarkerMap.VisibleSetSpec | script.js:33-40 | a marker is visible exactly when the lower-cased query occurs in its lower-cased stop name |
| MarkerMap.EmptyQueryShowsAll | script.js:33-35 | the empty query makes every marker visible |
| MarkerMap.StopMap.constructor | script.js:17-18 | the page starts with no stops and no markers |
| MarkerMap.StopMap.LoadStops | script.js:22-29 | keeps the loaded stops, appends one marker per stop carrying its lower-cased name, and puts each new marker on the map |
| MarkerMap.StopMap.OnInput | script.js:32-41 | afterwards the markers on the map are exactly those whose name contains the lower-cased query, whatever was shown before |
| MarkerMap.StopMap.LocateNearest | script.js:53-63 | nothing on an empty catalog; otherwise the first stop at the minimum distance |
| MarkerMap.RepeatInput | script.js:32-41 | once a query has been applied, another input event with the same query leaves the visible markers, the markers and the stops unchanged |

## Left out

- Leaflet map, tile layers, marker clustering, icons, popups and their HTML (main.js:37-74, script.js:2-15, 25-26): foreign rendering library calls.
- DOM event wiring, the 200 ms search debounce, the star animation and its timeout, the click-to-zoom of a suggestion or a panel entry, and the panel's open/close buttons: UI plumbing and timing.
- `fetch`, JSON decoding and the JSON serialisation of the favorites entry: I/O. The storage entry is modelled as the decoded list itself.
- Geolocation acquisition and the "not supported" alert: an external, asynchronous permission flow. The handlers receive the distance function directly.
- Dark mode (main.js:157-169): DOM state plus one storage flag, with no logic.
- The haversine formula (main.js:8-18) and `Math.hypot` (script.js:56): floating-point trigonometry. Distances are real numbers given by a parameter, so NaN and infinite distances do not arise. With those values, script.js's `Infinity` seed could leave `nearest` null on a non-empty catalog.
- Locate.LocateNearest: requires a non-empty catalog. On an empty catalog main.js reads `stops[0]` as undefined and throws on `nearest.lat`; that failure is not modelled.
- Unicode case mapping: `Text.Lower` maps only ASCII letters. Strings are sequences of code points, not UTF-16 code units.
- The star's CSS class is set from `isFavorite` when the popup HTML is built. The model covers only the membership test (`IsFavorite`) and the star's state after a toggle.
- Favorites.ToggleTwiceMembership: requires a duplicate-free list. With duplicates the membership is not restored.
