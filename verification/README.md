# The `matches` store of the live-scores front end

This project models the Pinia store `useMatchesStore` (`src/stores/app.ts`). The store
keeps the loaded matches, the ids the user marked as favourites, the search term, the
selected league and the sort mode. Its actions are `setMatches`, `setSelectedLeague`,
`setSearchTerm`, `setSortBy` and `setFavoriteMatch`. Its getters are `filteredMatches`
and `availableLeagues`. The project proves what each of them does.

Modules:

- `MatchTypes` (`match_types.dfy`): the `Match` record and the sort mode.
- `Lists` (`lists.dfy`): `Array.prototype.filter` as `Filter`, `indexOf` as `IndexOf`,
  and their laws.
- `Text` (`text.dfy`): `toLowerCase`, `includes` and `localeCompare` on strings.
- `Comparators` (`comparators.dfy`): `sortComparators` and the comparator that
  `filteredMatches` passes to `sort`, which puts favourites first. The module proves that
  the comparator is a total preorder: it is antisymmetric, reflexive and transitive.
- `StableSort` (`stable_sort.dfy`): `Array.prototype.sort`, which is stable, modelled as
  an insertion sort. It is proved sorted, a permutation and stable. It is also proved to be
  the only ordering with those three properties, so it stands for whatever stable sort
  the engine runs. In the `default` mode it reduces to a stable partition: favourites
  first, then the rest.
- `MatchView` (`match_view.dfy`): the value of `filteredMatches` as a function of the
  state, and the properties the view promises.
- `Leagues` (`leagues.dfy`): `availableLeagues`. The iteration order of `Set` is
  modelled by `Distinct`.
- `Favorites` (`favorites.dfy`): the toggle that `setFavoriteMatch` performs.
- `MatchesStore` (`store.dfy`): the store as a class, with one field per state entry.
  The actions are methods.

Two behaviours of the code are modelled as written:

- **The getter mutates the store's array in place.** `filteredMatches` starts from
  `state.allMatches`, and each `filter` returns a new array. When no filter applies, the
  `sort` call therefore reorders `allMatches` itself, and `setMatches` stored the
  caller's own array there. `allMatches` is modelled as an `array<Match>`, and
  `Store.FilteredMatches` returns that same array in this case. Its postcondition gives
  the new contents of `allMatches` (`MatchView.MatchesAfterView`).
  `MatchView.ReadReordersLaterViews` shows a consequence: an alphabetical read changes
  what a later `default` read shows. `MatchView.ViewRepeatable` shows that a repeated
  read with the same state is unaffected.
- **A league named `all` is listed twice.** `availableLeagues` prepends `'all'` and
  keeps the set of leagues unchanged. A match whose league is `"all"` therefore makes
  the entry appear twice (`Leagues.AllListedTwice`).

## Model

| member | source | states |
|---|---|---|
| Text.Lower | src/stores/app.ts:44-46 | lower-casing keeps the length and maps every character |
| Text.LowerIdempotent | src/stores/app.ts:44-46 | a stored term is already lower case, so lower-casing it again changes nothing |
| Text.Includes | src/stores/app.ts:70-73 | `includes` holds exactly when the needle occurs at some position of the haystack |
| Text.IncludesMeaning | src/stores/app.ts:70-73 | `includes` is true exactly when the needle occurs somewhere in the haystack |
| Text.IncludesEmpty | src/stores/app.ts:69 | every string includes the empty string, so skipping the empty term changes nothing |
| Text.Compare | src/stores/app.ts:22-24 | the home-team comparison is -1, 0 or 1, and 0 exactly for equal strings |
| Text.CompareAntisymmetric | src/stores/app.ts:22-24 | swapping the operands negates the comparison |
| Text.CompareTransitive | src/stores/app.ts:22-24 | the comparison is transitive |
| Comparators.IsFavorite | src/stores/app.ts:78-79 | `favoriteMatch.includes(id)`: true exactly when some position of the favourites holds the match's id |
| Comparators.SortComparator | src/stores/app.ts:15-25 | `sortComparators[sortBy]`: not positive exactly when the mode lets `a` precede `b` (`default` always, `time` most recent first, `alphabetical` ascending home team); zero exactly for `default`, equal timestamps or equal home teams |
| Comparators.Cmp | src/stores/app.ts:77-88 | the comparator passed to `sort`: negative when only `a` is a favourite, positive when only `b` is, zero exactly when both are in the same group and the mode comparator ties them |
| Comparators.CmpMeaning | src/stores/app.ts:15-25 | `a` may precede `b` exactly when only `a` is a favourite, or both are in the same group and the mode allows it (`default` always, `time` most recent first, `alphabetical` ascending home team) |
| Comparators.CmpAntisymmetric | src/stores/app.ts:77-88 | the favourites-first comparator is antisymmetric |
| Comparators.CmpReflexive | src/stores/app.ts:77-88 | every match ties with itself |
| Comparators.CmpTransitive | src/stores/app.ts:77-88 | the comparator is transitive, so `sort` gets a consistent comparator |
| Comparators.TiedTransitive | src/stores/app.ts:77-88 | ties are transitive |
| StableSort.Sort | src/stores/app.ts:77 | the sort keeps the length and the multiset of the input |
| StableSort.SortSorted | src/stores/app.ts:77-88 | the sorted sequence is in comparator order |
| StableSort.SortStable | src/stores/app.ts:77 | matches that tie keep their relative order |
| StableSort.SortUnique | src/stores/app.ts:77 | any sorted, stable permutation of the input equals `Sort`, so the model fixes the result of any stable engine sort |
| StableSort.SortIdempotent | src/stores/app.ts:77 | sorting a sorted sequence again changes nothing |
| StableSort.SortDefault | src/stores/app.ts:77-88 | in the `default` mode the sort is the favourites in input order followed by the other matches in input order |
| Lists.Filter | src/stores/app.ts:65-74 | the result of `filter` is no longer than the input, and every kept element passes |
| Lists.FilterMembership | src/stores/app.ts:65-74 | an element is kept exactly when it is in the input and passes |
| Lists.FilterSubset | src/stores/app.ts:65-74 | `filter` adds nothing: every kept element is in the input |
| Lists.FilterCompose | src/stores/app.ts:65-74 | two filters in a row equal one filter by the conjunction |
| Lists.FilterKeepsOrder | src/stores/app.ts:95 | filtering keeps a strictly increasing key increasing |
| Lists.IndexOf | src/stores/app.ts:52 | `indexOf` is -1 exactly when the value is absent; otherwise it is the first position of the value |
| MatchView.ByLeague | src/stores/app.ts:65-67 | the league step: every kept match has the selected league and comes from the input, and `"all"` keeps the input unchanged |
| MatchView.MatchesTerm | src/stores/app.ts:70-73 | the search test on the lower-cased team names: the empty term matches every match, and a term longer than both names matches none |
| MatchView.MatchesTermMeaning | src/stores/app.ts:70-73 | a match passes the search exactly when the term occurs somewhere in its lower-cased home or away team name |
| MatchView.BySearch | src/stores/app.ts:69-74 | the search step: every kept match contains the term in a team name and comes from the input, and the empty term keeps the input unchanged |
| MatchView.EmptyTermKeepsAll | src/stores/app.ts:69-74 | filtering by the empty term would keep every match, so skipping that filter for `""` gives the same result |
| MatchView.FilteredView | src/stores/app.ts:62-91 | the value of the getter: a permutation of the matches that pass both filters |
| MatchView.MatchesAfterView | src/stores/app.ts:62-91 | what `allMatches` holds after a read: the same matches as before, possibly reordered |
| MatchView.FiltersSelect | src/stores/app.ts:63-74 | the league step and the search step together keep exactly the matches that pass both, in their original order |
| MatchView.ViewContents | src/stores/app.ts:62-91 | the view is a permutation of the passing matches; a match is in the view exactly when it is loaded and passes both filters |
| MatchView.ViewFavoritesFirst | src/stores/app.ts:76-83 | no non-favourite precedes a favourite in the view |
| MatchView.ViewGroupOrder | src/stores/app.ts:77-88 | inside each group the view is ordered by the mode: `time` non-increasing `lastUpdated`, `alphabetical` non-decreasing home team |
| MatchView.ViewStable | src/stores/app.ts:77-88 | matches that tie keep the order the filters left them in |
| MatchView.ViewDefaultOrder | src/stores/app.ts:62-91 | in the `default` mode the view is the selected favourites in original order, then the other selected matches in original order |
| MatchView.ViewIsTheStableSort | src/stores/app.ts:77-90 | any sorted, stable permutation of the passing matches is the view |
| MatchView.ViewRepeatable | src/stores/app.ts:62-91 | a second read with the same state returns the same sequence as the first, although the first may have reordered `allMatches` |
| MatchView.FavoriteBeatsAlphabet | src/stores/app.ts:78-83 | a favourite whose home team sorts later still comes first in the alphabetical view |
| MatchView.ReadReordersLaterViews | src/stores/app.ts:62-91 | when no filter applies, an alphabetical read reorders `allMatches`, and a later `default` read shows the new order |
| Leagues.LeagueNames | src/stores/app.ts:94 | the mapped leagues, one per match, in order |
| Leagues.Distinct | src/stores/app.ts:94 | the set's iteration order holds no value twice |
| Leagues.DistinctMembership | src/stores/app.ts:94 | the set holds exactly the values of the input |
| Leagues.DistinctSnoc | src/stores/app.ts:94 | inserting a value into the set puts it last unless it is already there |
| Leagues.DistinctExample | src/stores/app.ts:94 | with three distinct values, the set of `[a, b, a, c]` iterates `a`, `b`, `c` |
| Leagues.DistinctFirstOccurrence | src/stores/app.ts:94 | the set iterates values in the order of their first insertion |
| Leagues.AvailableLeagues | src/stores/app.ts:93-96 | the getter's value: `"all"` first and no empty string anywhere |
| Leagues.AvailableLeaguesListed | src/stores/app.ts:93-96 | after `"all"`: exactly the non-empty leagues of the matches, each once, ordered by their first match |
| Leagues.AvailableLeaguesShape | src/stores/app.ts:95 | the list starts with `"all"`, never holds the empty string, and after `"all"` holds the distinct non-empty leagues |
| Leagues.AvailableLeaguesContents | src/stores/app.ts:93-96 | after `"all"`, a league is listed exactly when it is non-empty and some match has it |
| Leagues.AvailableLeaguesOrder | src/stores/app.ts:93-96 | after `"all"`, each league is listed once, in the order of its first match |
| Leagues.AllListedTwice | src/stores/app.ts:95 | a match whose league is `"all"` makes `"all"` appear twice |
| Leagues.AvailableLeaguesExample | src/stores/app.ts:93-96 | leagues `EPL`, empty, `EPL`, `LaLiga` give `all`, `EPL`, `LaLiga` |
| Favorites.Toggle | src/stores/app.ts:51-58 | an absent id is appended; a present id has its first occurrence removed and nothing else moves |
| Favorites.ToggleMultiset | src/stores/app.ts:51-58 | toggling removes one copy of a present id and adds one copy of an absent id |
| Favorites.ToggleTwiceAbsent | src/stores/app.ts:51-58 | toggling an absent id twice restores the list exactly |
| Favorites.ToggleTwiceOnce | src/stores/app.ts:51-58 | toggling an id that occurs once twice moves it to the end and keeps the same multiset |
| Favorites.ToggleTwiceRepeated | src/stores/app.ts:51-58 | toggling an id that occurs at least twice removes two copies |
| Favorites.ToggleKeepsNoDup | src/stores/app.ts:51-58 | a duplicate-free list stays duplicate-free, and afterwards holds the id exactly when it did not before |
| Favorites.ToggleOthers | src/stores/app.ts:51-58 | every other id occurs as often as before |
| MatchesStore.FromSeq | src/stores/app.ts:65-74 | `filter` returns a new array holding the kept matches |
| MatchesStore.Overwrite | src/stores/app.ts:77 | `sort` writes its result over the elements of the array it was called on |
| MatchesStore.Store.constructor | src/stores/app.ts:28-34 | the initial state: no matches, no favourites, an empty term, league `all`, mode `default` |
| MatchesStore.Store.SetMatches | src/stores/app.ts:37-39 | stores the given array itself, keeps the store invariant, and no other field changes |
| MatchesStore.Store.SetSelectedLeague | src/stores/app.ts:41-43 | stores the league, keeps the store invariant, and no other field changes |
| MatchesStore.Store.SetSearchTerm | src/stores/app.ts:44-46 | stores the term lower-cased and keeps the store invariant |
| MatchesStore.Store.SetSortBy | src/stores/app.ts:48-50 | stores the mode, keeps the store invariant, and no other field changes |
| MatchesStore.Store.SetFavoriteMatch | src/stores/app.ts:51-58 | the favourites become `Toggle` of the old favourites, and the list stays free of duplicates |
| MatchesStore.Store.FilteredMatches | src/stores/app.ts:62-91 | returns the view of the old contents and keeps the store invariant; with no filter it returns `allMatches` itself, reordered; otherwise it returns a new array and leaves `allMatches` as it was |
| MatchesStore.Store.AvailableLeagues | src/stores/app.ts:93-96 | `"all"` first, no empty entry, and after `"all"` exactly the non-empty leagues of the stored matches, each once, in the order of their first match |

## Left out

- `src/api/index.ts` (the fetch call) and `src/main.ts` (application start-up) are not part of this model: they do I/O or wire the framework.
- Pinia reactivity, getter caching and the Vue components that call the store are not modelled. Each getter read is a call of the getter method.
- `Match` keeps only `id`, `homeTeam`, `awayTeam`, `league` and `lastUpdated`. The store never reads `sport`, the scores, `status`, `matchTime`, `venue` or `source`.
- `lastUpdated` is an integer timestamp, and `new Date(...).getTime()` is not modelled. An invalid date (`NaN`) would make the `time` comparator inconsistent. The model does not represent that case.
- Text.Lower: lower-cases ASCII letters only. The full Unicode case mapping of `toLowerCase` is not modelled.
- Text.Compare: compares by code point. `localeCompare` uses the collation of the runtime locale, which can order letters differently and can tie distinct strings.
- `StableSort.Sort` is an insertion sort. The engine's algorithm is not modelled, but `StableSort.SortUnique` shows that every stable sort returns the same sequence for this comparator.
- The fallback `sortComparators[sortKey] || sortComparators.default` (line 86) is not modelled separately. `SortBy` has only the three modes, and each has a comparator, so the fallback never applies.
- `favoriteMatch` is a value sequence that the actions reassign. `splice` and `push` mutate the array in place, but no other code holds a reference to it here, so no aliasing is lost.
- A `setMatches` argument that is not an array, and any other untyped input, is excluded by the types.
